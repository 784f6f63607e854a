/** A sequential scan of one component (ITU-T T.81 section F.2.1). */
module JpegScan {
  import opened Options
  import opened Bits
  import opened Canonical
  import T = JpegTable
  import opened JpegDecode
  import opened JpegBlock

  /** Tables of a component: code lengths and values for DC and AC, and the quantizers. */
  datatype Tables = Tables(dc: seq<nat>, dcValues: seq<byte>, ac: seq<nat>, acValues: seq<byte>, dequant: seq<byte>)

  predicate Usable(t: Tables) {
    && |t.dc| <= |t.dcValues| && |t.ac| <= |t.acValues| && |t.dequant| == 64
    && Fits(t.dc, 16) && Fits(t.ac, 16)
    && (forall i :: 0 <= i < |t.dc| ==> t.dc[i] <= 16) && (forall i :: 0 <= i < |t.ac| ==> t.ac[i] <= 16)
  }

  /** The blocks of a scan of one component from position p on, each predicted from
      the one before. */
  ghost function ScanAt(t: Tables, S: seq<byte>, p: nat, pred: int, n: nat): (r: Option<(seq<seq<int>>, nat)>)
    requires Usable(t)
    ensures r.Some? ==> |r.value.0| == n && r.value.1 >= p
    decreases n
  {
    if n == 0 then Some(([], p))
    else
      match BlockAt(t.dc, t.dcValues, t.ac, t.acValues, t.dequant, S, p, pred)
      case None => None
      case Some(b) =>
        match ScanAt(t, S, b.pos, pred + DcAt(t.dc, t.dcValues, S, p).value.0, n - 1)
        case None => None
        case Some((blocks, end)) => Some(([b.data] + blocks, end))
  }

  /** The blocks of a scan of one component without restart intervals. */
  method DecodeScan(j: Decoder, hdc: T.Huffman, hac: T.Huffman, fac: array<int>, ghost t: Tables, dequant: seq<byte>,
                    data: array<int>, n: nat)
    returns (ok: bool, blocks: seq<seq<int>>)
    requires Usable(t) && t.dcValues == hdc.values[..] && t.acValues == hac.values[..] && t.dequant == dequant
    requires j.Valid() && hdc.For(t.dc) && hac.For(t.ac) && AcTable(fac[..], t.ac, t.acValues)
    requires data.Length == 64 && forall i :: 0 <= i < 256 ==> hdc.values[i] <= 15
    requires data != fac && data !in hdc.Repr && data !in hac.Repr
    modifies j, data
    ensures var spec := ScanAt(t, j.S, old(j.pos), 0, n);
            && (ok ==> j.Valid() && spec == Some((blocks, j.pos)))
            && (!ok ==> spec.None? || j.Beyond(spec.value.1))
  {
    hide BlockAt, DcAt, AcTable, ScanAt, Fits;
    blocks := [];
    ghost var spec := ScanAt(t, j.S, j.pos, 0, n);
    ghost var table := fac[..];
    var pred, m: nat := 0, n;
    OnwardNone(spec);
    while m > 0
      invariant m <= n && j.Valid() && hdc.For(t.dc) && hac.For(t.ac) && fac[..] == table
      invariant t.dcValues == hdc.values[..] && t.acValues == hac.values[..]
      invariant spec == Onward(blocks, ScanAt(t, j.S, j.pos, pred, m))
    {
      ScanStep(t, j.S, j.pos, pred, m, blocks);
      ok, pred := DecodeBlock(j, hdc, t.dc, hac, t.ac, fac, dequant, pred, data);
      if !ok { return; }
      blocks := blocks + [data[..]];
      m := m - 1;
    }
    ScanDone(t, j.S, j.pos, pred, blocks);
    ok := true;
  }

  /** Blocks in front of the rest of a scan. */
  ghost function Onward(blocks: seq<seq<int>>, rest: Option<(seq<seq<int>>, nat)>): Option<(seq<seq<int>>, nat)> {
    match rest
    case None => None
    case Some((more, end)) => Some((blocks + more, end))
  }

  lemma OnwardNone(rest: Option<(seq<seq<int>>, nat)>)
    ensures Onward([], rest) == rest
  {
    if rest.Some? { assert [] + rest.value.0 == rest.value.0; }
  }

  lemma ScanDone(t: Tables, S: seq<byte>, p: nat, pred: int, done: seq<seq<int>>)
    requires Usable(t)
    ensures Onward(done, ScanAt(t, S, p, pred, 0)) == Some((done, p))
  {
    assert done + [] == done;
  }

  lemma ScanStep(t: Tables, S: seq<byte>, p: nat, pred: int, n: nat, done: seq<seq<int>>)
    requires Usable(t) && n > 0
    ensures var b := BlockAt(t.dc, t.dcValues, t.ac, t.acValues, t.dequant, S, p, pred);
            var all := Onward(done, ScanAt(t, S, p, pred, n));
            && (b.None? ==> all.None?)
            && (b.Some? && all.Some? ==> b.value.pos <= all.value.1)
            && (b.Some? ==>
                  all == Onward(done + [b.value.data],
                                ScanAt(t, S, b.value.pos, pred + DcAt(t.dc, t.dcValues, S, p).value.0, n - 1)))
  {
    hide BlockAt, DcAt, Fits;
    var b := BlockAt(t.dc, t.dcValues, t.ac, t.acValues, t.dequant, S, p, pred);
    if b.Some? {
      DcOfBlock(t, S, p, pred);
      var rest := ScanAt(t, S, b.value.pos, pred + DcAt(t.dc, t.dcValues, S, p).value.0, n - 1);
      if rest.Some? {
        assert done + ([b.value.data] + rest.value.0) == done + [b.value.data] + rest.value.0;
      }
    }
  }

  lemma DcOfBlock(t: Tables, S: seq<byte>, p: nat, pred: int)
    requires Usable(t) && BlockAt(t.dc, t.dcValues, t.ac, t.acValues, t.dequant, S, p, pred).Some?
    ensures DcAt(t.dc, t.dcValues, S, p).Some?
  {
    hide DcAt, AcFrom, Fits;
  }
}
