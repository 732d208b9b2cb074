/** The sampler behind the selectivity estimator: it collects vectors, writes them to a binary file
    and loads them back. A vector component is a 32-bit float, kept here as its bit pattern. */
module Sampler {
  import opened RowIdentity
  import opened Ranking
  import Nearest
  import Selectivity

  type Byte = x: int | 0 <= x < 256

  type Vector = seq<Uint32>

  // ---------- machine words as bytes ----------

  /** The k low-order bytes of n, least significant first. */
  function Bytes(n: nat, k: nat): (bs: seq<Byte>)
    ensures |bs| == k
  {
    if k == 0 then [] else [n % 256] + Bytes(n / 256, k - 1)
  }

  function Number(bs: seq<Byte>): nat {
    if bs == [] then 0 else bs[0] + 256 * Number(bs[1..])
  }

  function Pow256(k: nat): nat {
    if k == 0 then 1 else 256 * Pow256(k - 1)
  }

  lemma {:induction false} NumberOfBytes(n: nat, k: nat)
    requires n < Pow256(k)
    ensures Number(Bytes(n, k)) == n
  {
    if k > 0 {
      NumberOfBytes(n / 256, k - 1);
      assert Bytes(n, k)[1..] == Bytes(n / 256, k - 1);
    }
  }

  lemma {:induction false} NumberBound(bs: seq<Byte>)
    ensures Number(bs) < Pow256(|bs|)
  {
    if bs != [] {
      NumberBound(bs[1..]);
    }
  }

  lemma Words()
    ensures Pow256(4) == 0x1_0000_0000 && Pow256(8) == 0x1_0000_0000_0000_0000
  {
    assert Pow256(4) == 256 * (256 * (256 * (256 * Pow256(0))));
    assert Pow256(8) == 256 * (256 * (256 * (256 * Pow256(4))));
  }

  // ---------- the file format ----------

  function VectorBytes(v: Vector): (bs: seq<Byte>)
    ensures |bs| == 4 * |v|
  {
    if v == [] then [] else Bytes(v[0], 4) + VectorBytes(v[1..])
  }

  function DataBytes(data: seq<Vector>): seq<Byte> {
    if data == [] then [] else VectorBytes(data[0]) + DataBytes(data[1..])
  }

  /** What save writes: the number of samples, the dimension, and the components. */
  function FileBytes(data: seq<Vector>, dimension: nat): seq<Byte> {
    Bytes(|data|, 8) + Bytes(dimension, 8) + DataBytes(data)
  }

  function Word(bs: seq<Byte>): Uint32
    requires |bs| == 4
  {
    Words();
    NumberBound(bs);
    Number(bs)
  }

  function ReadVector(bs: seq<Byte>, dimension: nat): (v: Vector)
    requires |bs| >= 4 * dimension
    ensures |v| == dimension
    decreases dimension
  {
    if dimension == 0 then [] else [Word(bs[..4])] + ReadVector(bs[4..], dimension - 1)
  }

  function ReadData(bs: seq<Byte>, count: nat, dimension: nat): Option<seq<Vector>>
    decreases count
  {
    if count == 0 then Some([])
    else if |bs| < 4 * dimension then None
    else
      Joined([ReadVector(bs, dimension)], ReadData(bs[4 * dimension..], count - 1, dimension))
  }

  /** What the loading constructor reads; None where it throws because the file is too short. */
  function ReadFile(bs: seq<Byte>): Option<(seq<Vector>, nat)> {
    if |bs| < 16 then None
    else
      var count, dimension := Number(bs[..8]), Number(bs[8..16]);
      match ReadData(bs[16..], count, dimension)
      case None => None
      case Some(data) => Some((data, dimension))
  }

  ghost predicate Uniform(data: seq<Vector>, dimension: nat) {
    forall i :: 0 <= i < |data| ==> |data[i]| == dimension
  }

  lemma {:induction false} ReadVectorBack(v: Vector, rest: seq<Byte>)
    ensures ReadVector(VectorBytes(v) + rest, |v|) == v
  {
    if v != [] {
      var bs := VectorBytes(v) + rest;
      assert bs[..4] == Bytes(v[0], 4);
      assert bs[4..] == VectorBytes(v[1..]) + rest;
      Words();
      NumberOfBytes(v[0], 4);
      ReadVectorBack(v[1..], rest);
    }
  }

  lemma {:induction false} ReadDataBack(data: seq<Vector>, dimension: nat)
    requires Uniform(data, dimension)
    ensures ReadData(DataBytes(data), |data|, dimension) == Some(data)
  {
    if data != [] {
      var bs, rest := DataBytes(data), DataBytes(data[1..]);
      ReadDataBack(data[1..], dimension);
      ReadVectorBack(data[0], rest);
      assert bs[4 * dimension..] == rest;
      assert data == [data[0]] + data[1..];
    }
  }

  /** Loading what was saved restores the samples and the dimension. */
  lemma RoundTrip(data: seq<Vector>, dimension: nat)
    requires Uniform(data, dimension)
    requires |data| < 0x1_0000_0000_0000_0000 && dimension < 0x1_0000_0000_0000_0000
    ensures ReadFile(FileBytes(data, dimension)) == Some((data, dimension))
  {
    var bs := FileBytes(data, dimension);
    Words();
    NumberOfBytes(|data|, 8);
    NumberOfBytes(dimension, 8);
    assert bs[..8] == Bytes(|data|, 8);
    assert bs[8..16] == Bytes(dimension, 8);
    assert bs[16..] == DataBytes(data);
    ReadDataBack(data, dimension);
  }

  // ---------- the estimator ----------

  /** One offered vector, and whether the random draw picks it. */
  datatype Offer = Offer(vec: Vector, sampled: bool)

  datatype Samples = Samples(data: seq<Vector>, dimension: nat)

  /** A vector of the wrong length is refused with an exception and changes nothing. */
  predicate Refused(s: Samples, vec: Vector) {
    s.dimension != 0 && s.dimension != |vec|
  }

  function Add(s: Samples, offer: Offer): Samples {
    if Refused(s, offer.vec) then s
    else Samples(if offer.sampled then s.data + [offer.vec] else s.data, |offer.vec|)
  }

  function AddAll(s: Samples, offers: seq<Offer>): Samples
    decreases |offers|
  {
    if offers == [] then s else AddAll(Add(s, offers[0]), offers[1..])
  }

  function Joined(data: seq<Vector>, more: Option<seq<Vector>>): Option<seq<Vector>> {
    match more
    case None => None
    case Some(rest) => Some(data + rest)
  }

  lemma JoinedStep(data: seq<Vector>, v: Vector, more: Option<seq<Vector>>)
    ensures Joined(data + [v], more) == Joined(data, Joined([v], more))
  {
    if more.Some? {
      assert data + [v] + more.value == data + ([v] + more.value);
    }
  }

  lemma JoinedUnits(data: seq<Vector>, more: Option<seq<Vector>>)
    ensures Joined([], more) == more
    ensures Joined(data, Some([])) == Some(data)
    ensures Joined(data, None) == None
  {
    if more.Some? {
      assert [] + more.value == more.value;
    }
    assert data + [] == data;
  }

  class RangeRSelEsti {
    var sampledData: seq<Vector>
    var dimension: nat

    constructor ()
      ensures Value() == Samples([], 0)
    {
      sampledData, dimension := [], 0;
    }

    ghost function Value(): Samples
      reads this
    {
      Samples(sampledData, dimension)
    }

    method AddTuple(vec: Vector, picked: bool) returns (sampled: Option<bool>)
      modifies this
      ensures sampled == if old(Refused(Value(), vec)) then None else Some(picked)
      ensures Value() == Add(old(Value()), Offer(vec, picked))
    {
      if dimension == 0 {
        dimension := |vec|;
      } else if dimension != |vec| {
        return None;
      }
      if picked {
        sampledData := sampledData + [vec];
        return Some(true);
      }
      return Some(false);
    }

    method Save() returns (bytes: seq<Byte>)
      requires Uniform(sampledData, dimension)
      ensures bytes == FileBytes(sampledData, dimension)
    {
      hide Bytes, VectorBytes;
      bytes := Bytes(|sampledData|, 8) + Bytes(dimension, 8);
      for i := 0 to |sampledData|
        invariant bytes + DataBytes(sampledData[i..]) == FileBytes(sampledData, dimension)
      {
        assert sampledData[i..][1..] == sampledData[i + 1..];
        bytes := bytes + VectorBytes(sampledData[i]);
      }
    }

    /** The loading constructor; on a short file it throws and there is no object. */
    method Load(bytes: seq<Byte>) returns (ok: bool)
      modifies this
      ensures ok == ReadFile(bytes).Some?
      ensures ok ==> ReadFile(bytes) == Some((sampledData, dimension))
    {
      hide Number, ReadVector, Joined;
      sampledData := [];
      if |bytes| < 16 {
        return false;
      }
      var count := Number(bytes[..8]);
      dimension := Number(bytes[8..16]);
      var rest := bytes[16..];
      ghost var whole := ReadData(rest, count, dimension);
      JoinedUnits([], whole);
      for i := 0 to count
        invariant |sampledData| == i
        invariant ReadFile(bytes) == if whole.Some? then Some((whole.value, dimension)) else None
        invariant whole == Joined(sampledData, ReadData(rest, count - i, dimension))
      {
        if |rest| < 4 * dimension {
          JoinedUnits(sampledData, None);
          return false;
        }
        JoinedStep(sampledData, ReadVector(rest, dimension), ReadData(rest[4 * dimension..], count - i - 1, dimension));
        sampledData := sampledData + [ReadVector(rest, dimension)];
        rest := rest[4 * dimension..];
      }
      JoinedUnits(sampledData, None);
      return true;
    }

    /** The estimate: the share of the sampled vectors within the radius, or 0.33 without samples. */
    method Estimate(query: Vector, radius: real, dist: (Vector, Vector) -> real) returns (s: real)
      ensures s == if sampledData == [] then 0.33 else Selectivity.Share(DistancesTo(sampledData, query, dist), radius)
    {
      if sampledData == [] {
        return 0.33;
      }
      var selected := 0;
      ghost var ds := DistancesTo(sampledData, query, dist);
      for i := 0 to |sampledData|
        invariant selected == Nearest.Closer(ds[..i], radius, false)
      {
        assert ds[..i + 1][..i] == ds[..i];
        if dist(query, sampledData[i]) <= radius {
          selected := selected + 1;
        }
      }
      assert ds[..|ds|] == ds;
      return selected as real / |sampledData| as real;
    }
  }

  function DistancesTo(data: seq<Vector>, query: Vector, dist: (Vector, Vector) -> real): (ds: seq<real>)
    ensures |ds| == |data|
  {
    seq(|data|, i requires 0 <= i < |data| => dist(query, data[i]))
  }

  /** Saving to a file and loading it elsewhere leaves every estimate unchanged. */
  method CopyThroughFile(from: RangeRSelEsti, to: RangeRSelEsti) returns (ok: bool)
    requires from != to && Uniform(from.sampledData, from.dimension)
    requires |from.sampledData| < 0x1_0000_0000_0000_0000 && from.dimension < 0x1_0000_0000_0000_0000
    modifies to
    ensures ok && to.Value() == from.Value() == old(from.Value())
  {
    var bytes := from.Save();
    RoundTrip(from.sampledData, from.dimension);
    ok := to.Load(bytes);
  }

  // ---------- when all samples have the recorded dimension ----------

  function FirstNonempty(offers: seq<Offer>): (n: nat)
    ensures n <= |offers|
  {
    if offers == [] || offers[0].vec != [] then 0 else 1 + FirstNonempty(offers[1..])
  }

  /** No empty vector was sampled ahead of a nonempty one. */
  ghost predicate Clean(offers: seq<Offer>) {
    var n := FirstNonempty(offers);
    n == |offers| || forall i :: 0 <= i < n ==> !offers[i].sampled
  }

  lemma {:induction false} DimensionFixed(s: Samples, offers: seq<Offer>)
    requires s.dimension > 0
    ensures var t := AddAll(s, offers);
            t.dimension == s.dimension && (Uniform(t.data, t.dimension) <==> Uniform(s.data, s.dimension))
    decreases |offers|
  {
    if offers != [] {
      var t := Add(s, offers[0]);
      assert s.data <= t.data;
      assert forall i :: 0 <= i < |s.data| ==> t.data[i] == s.data[i];
      DimensionFixed(t, offers[1..]);
    }
  }

  lemma {:induction false} StillUnset(s: Samples, offers: seq<Offer>)
    requires s.dimension == 0 && Uniform(s.data, 0)
    ensures var t := AddAll(s, offers);
            Uniform(t.data, t.dimension) <==> Clean(offers) && (s.data != [] ==> FirstNonempty(offers) == |offers|)
    decreases |offers|
  {
    if offers != [] {
      var head, tail := offers[0], offers[1..];
      var t := Add(s, head);
      if head.vec == [] {
        StillUnset(t, tail);
        assert forall i :: 0 <= i < |tail| ==> tail[i] == offers[i + 1];
        assert Clean(offers) <==> FirstNonempty(tail) == |tail| || (!head.sampled && Clean(tail));
      } else {
        DimensionFixed(t, tail);
        assert Uniform(t.data, t.dimension) <==> s.data == [] by {
          if s.data != [] {
            assert t.data[0] == s.data[0];
          }
        }
      }
    }
  }

  /** From an empty sampler, whatever is offered, all samples have the recorded dimension exactly
      when no empty vector was sampled before the first nonempty one came. In particular they do
      when only nonempty vectors are offered. */
  lemma UniformIff(offers: seq<Offer>)
    ensures var t := AddAll(Samples([], 0), offers);
            Uniform(t.data, t.dimension) <==> Clean(offers)
    ensures (forall i :: 0 <= i < |offers| ==> offers[i].vec != []) ==> Clean(offers)
  {
    StillUnset(Samples([], 0), offers);
  }

  /** An input that breaks it: an empty vector is sampled while the dimension is unset, and the
      next vector sets the dimension. */
  lemma EmptySampleCounterexample()
    ensures var offers := [Offer([], true), Offer([1], false)];
            !Clean(offers) && AddAll(Samples([], 0), offers) == Samples([[]], 1) && !Uniform([[]], 1)
  {
    var offers := [Offer([], true), Offer([1], false)];
    assert offers[1..] == [Offer([1], false)];
    assert Add(Samples([], 0), offers[0]) == Samples([[]], 0);
    assert Add(Samples([[]], 0), offers[1]) == Samples([[]], 1);
    assert FirstNonempty(offers) == 1 && offers[0].sampled;
    var data: seq<Vector> := [[]];
    assert |data[0]| == 0;
  }
}
