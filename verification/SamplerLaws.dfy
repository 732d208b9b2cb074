/** What the sampler holds after any offers, and what its files look like byte by byte. */
module SamplerLaws {
  import opened Ranking
  import opened Sampler

  // ---------- what is sampled ----------

  /** The first nonempty vector that was offered. */
  predicate SetsDimension(offers: seq<Offer>, j: nat) {
    j < |offers| && offers[j].vec != [] && forall h :: 0 <= h < j ==> offers[h].vec == []
  }

  /** A vector is accepted if it is as long as the first nonempty one before it, if there is one. */
  ghost predicate Accepted(offers: seq<Offer>, i: nat)
    requires i < |offers|
  {
    forall j: nat :: j < i && SetsDimension(offers, j) ==> |offers[i].vec| == |offers[j].vec|
  }

  /** The accepted vectors among the first n that the draw picked, in order. */
  ghost function Picked(offers: seq<Offer>, n: nat): seq<Vector>
    requires n <= |offers|
  {
    if n == 0 then []
    else Picked(offers, n - 1) + if offers[n - 1].sampled && Accepted(offers, n - 1) then [offers[n - 1].vec] else []
  }

  ghost predicate DimensionIs(offers: seq<Offer>, n: nat, d: nat)
    requires n <= |offers|
  {
    if d == 0 then forall j :: 0 <= j < n ==> offers[j].vec == []
    else exists j: nat :: j < n && SetsDimension(offers, j) && |offers[j].vec| == d
  }

  lemma {:induction false} AddLast(s: Samples, offers: seq<Offer>, offer: Offer)
    ensures AddAll(s, offers + [offer]) == Add(AddAll(s, offers), offer)
    decreases |offers|
  {
    if offers == [] {
      assert offers + [offer] == [offer];
    } else {
      assert (offers + [offer])[1..] == offers[1..] + [offer];
      AddLast(Add(s, offers[0]), offers[1..], offer);
    }
  }

  lemma RefusedIff(offers: seq<Offer>, n: nat, d: nat)
    requires n < |offers| && DimensionIs(offers, n, d)
    ensures Accepted(offers, n) <==> d == 0 || d == |offers[n].vec|
    ensures Accepted(offers, n) ==> DimensionIs(offers, n + 1, |offers[n].vec|)
    ensures !Accepted(offers, n) ==> DimensionIs(offers, n + 1, d)
  {
    if d == 0 {
      if offers[n].vec != [] {
        assert SetsDimension(offers, n);
      }
    } else {
      var j: nat :| j < n && SetsDimension(offers, j) && |offers[j].vec| == d;
      forall h: nat | h < n && SetsDimension(offers, h)
        ensures h == j
      {
      }
    }
  }

  /** Whatever is offered to an empty sampler: the samples are the accepted vectors that were picked, in
      the order they came, and the dimension is the length of the first nonempty vector, or 0. */
  lemma {:induction false} SamplesAre(offers: seq<Offer>, n: nat)
    requires n <= |offers|
    ensures var t := AddAll(Samples([], 0), offers[..n]);
            t.data == Picked(offers, n) && DimensionIs(offers, n, t.dimension)
  {
    if n > 0 {
      SamplesAre(offers, n - 1);
      assert offers[..n] == offers[..n - 1] + [offers[n - 1]];
      AddLast(Samples([], 0), offers[..n - 1], offers[n - 1]);
      hide DimensionIs, Accepted;
      RefusedIff(offers, n - 1, AddAll(Samples([], 0), offers[..n - 1]).dimension);
    }
  }

  /** Vectors of one nonzero length are all accepted. */
  lemma OneLength(offers: seq<Offer>, d: nat, i: nat)
    requires d > 0 && i < |offers| && forall j :: 0 <= j < |offers| ==> |offers[j].vec| == d
    ensures Accepted(offers, i)
  {
  }

  // ---------- the bytes of a file ----------

  /** The 32-bit word at p, least significant byte first. */
  function Word32(f: seq<Byte>, p: nat): nat
    requires p + 4 <= |f|
  {
    var a: nat, b: nat, c: nat, d: nat := f[p], f[p + 1], f[p + 2], f[p + 3];
    a + 0x100 * b + 0x1_0000 * c + 0x100_0000 * d
  }

  function Word64(f: seq<Byte>, p: nat): nat
    requires p + 8 <= |f|
  {
    Word32(f, p) + 0x1_0000_0000 * Word32(f, p + 4)
  }

  lemma FourBytes(bs: seq<Byte>)
    requires |bs| >= 4
    ensures Number(bs) == Word32(bs, 0) + 0x1_0000_0000 * Number(bs[4..])
  {
    var b1 := bs[1..];
    var b2 := b1[1..];
    var b3 := b2[1..];
    assert b3[1..] == bs[4..];
    assert Number(b3) == bs[3] + 256 * Number(bs[4..]);
    assert Number(b2) == bs[2] + 256 * Number(b3);
    assert Number(b1) == bs[1] + 256 * Number(b2);
  }

  lemma NumberIsWord(f: seq<Byte>, p: nat)
    ensures p + 4 <= |f| ==> Number(f[p..p + 4]) == Word32(f, p)
    ensures p + 8 <= |f| ==> Number(f[p..p + 8]) == Word64(f, p)
  {
    if p + 4 <= |f| {
      FourBytes(f[p..p + 4]);
      assert f[p..p + 4][4..] == [];
    }
    if p + 8 <= |f| {
      FourBytes(f[p..p + 8]);
      FourBytes(f[p + 4..p + 8]);
      assert f[p..p + 8][4..] == f[p + 4..p + 8];
      assert f[p + 4..p + 8][4..] == [];
    }
  }

  lemma {:induction false} VectorAt(v: Vector, j: nat)
    requires j < |v|
    ensures VectorBytes(v)[4 * j..4 * j + 4] == Bytes(v[j], 4)
  {
    if j > 0 {
      VectorAt(v[1..], j - 1);
      assert VectorBytes(v)[4 * j..4 * j + 4] == VectorBytes(v[1..])[4 * j - 4..4 * j];
    }
  }

  /** The bytes taken by n vectors of dimension d. */
  function Size(n: nat, d: nat): nat {
    4 * (n * d)
  }

  lemma SizeStep(n: nat, d: nat)
    ensures Size(0, d) == 0 && Size(n + 1, d) == 4 * d + Size(n, d)
  {
    assert (n + 1) * d == n * d + d;
  }

  lemma {:induction false} DataSize(data: seq<Vector>, d: nat)
    requires Uniform(data, d)
    ensures |DataBytes(data)| == Size(|data|, d)
  {
    hide Size;
    SizeStep(0, d);
    if data != [] {
      DataSize(data[1..], d);
      SizeStep(|data| - 1, d);
    }
  }

  lemma {:induction false} DataAt(data: seq<Vector>, d: nat, i: nat)
    requires Uniform(data, d) && i < |data|
    ensures Size(i, d) + 4 * d <= |DataBytes(data)|
    ensures DataBytes(data)[Size(i, d)..Size(i, d) + 4 * d] == VectorBytes(data[i])
  {
    hide Size, VectorBytes;
    var head, tail := VectorBytes(data[0]), DataBytes(data[1..]);
    if i == 0 {
      SizeStep(0, d);
      assert (head + tail)[0..4 * d] == head;
    } else {
      SizeStep(i - 1, d);
      DataAt(data[1..], d, i - 1);
      var q := Size(i - 1, d);
      assert (head + tail)[4 * d + q..4 * d + q + 4 * d] == tail[q..q + 4 * d];
    }
  }

  /** Where component j of sample i starts. */
  function Place(i: nat, j: nat, d: nat): nat {
    16 + Size(i, d) + 4 * j
  }

  lemma ComponentAt(data: seq<Vector>, d: nat, i: nat, j: nat)
    requires Uniform(data, d) && i < |data| && j < d
    ensures var f, p := FileBytes(data, d), Place(i, j, d); p + 4 <= |f| && f[p..p + 4] == Bytes(data[i][j], 4)
  {
    hide Size, Bytes, DataBytes, VectorBytes;
    DataAt(data, d, i);
    VectorAt(data[i], j);
    var f, q := FileBytes(data, d), Size(i, d);
    var part := DataBytes(data)[q..q + 4 * d];
    assert f[16 + q + 4 * j..16 + q + 4 * j + 4] == part[4 * j..4 * j + 4];
  }

  /** The file: the number of samples in bytes 0 to 7, the dimension in bytes 8 to 15, and component j of
      sample i in the four bytes from 16 + 4(i d + j) on; least significant byte first, and nothing else. */
  lemma FileLayout(data: seq<Vector>, d: nat)
    requires Uniform(data, d) && |data| < 0x1_0000_0000_0000_0000 && d < 0x1_0000_0000_0000_0000
    ensures var f := FileBytes(data, d);
            && |f| == 16 + Size(|data|, d)
            && Word64(f, 0) == |data| && Word64(f, 8) == d
            && forall i, j :: 0 <= i < |data| && 0 <= j < d ==>
                 Place(i, j, d) + 4 <= |f| && Word32(f, Place(i, j, d)) == data[i][j]
  {
    hide Bytes, DataBytes, Number, Size, Place, Word32;
    var f := FileBytes(data, d);
    DataSize(data, d);
    Words();
    NumberIsWord(f, 0);
    NumberIsWord(f, 8);
    NumberOfBytes(|data|, 8);
    NumberOfBytes(d, 8);
    assert f[0..8] == Bytes(|data|, 8) && f[8..16] == Bytes(d, 8);
    forall i, j | 0 <= i < |data| && 0 <= j < d
      ensures Place(i, j, d) + 4 <= |f| && Word32(f, Place(i, j, d)) == data[i][j]
    {
      ComponentAt(data, d, i, j);
      NumberIsWord(f, Place(i, j, d));
      NumberOfBytes(data[i][j], 4);
    }
  }

  // ---------- what a file is read as ----------

  lemma {:induction false} BytesOfNumber(bs: seq<Byte>)
    ensures Bytes(Number(bs), |bs|) == bs
  {
    if bs != [] {
      BytesOfNumber(bs[1..]);
      var n := Number(bs);
      assert n % 256 == bs[0] && n / 256 == Number(bs[1..]);
    }
  }

  lemma {:induction false} VectorRead(bs: seq<Byte>, d: nat)
    requires |bs| >= 4 * d
    ensures VectorBytes(ReadVector(bs, d)) == bs[..4 * d]
    decreases d
  {
    if d > 0 {
      BytesOfNumber(bs[..4]);
      VectorRead(bs[4..], d - 1);
      var v := ReadVector(bs, d);
      assert v[1..] == ReadVector(bs[4..], d - 1);
      assert bs[..4 * d] == bs[..4] + bs[4..][..4 * d - 4];
    }
  }

  /** What reading vectors back to back says about the bytes. */
  ghost predicate ReadAs(bs: seq<Byte>, count: nat, d: nat, data: seq<Vector>) {
    |data| == count && Uniform(data, d) && DataBytes(data) <= bs
  }

  lemma {:induction false} DataRead(bs: seq<Byte>, count: nat, d: nat)
    ensures ReadData(bs, count, d).Some? <==> |bs| >= Size(count, d)
    ensures ReadData(bs, count, d).Some? ==> ReadAs(bs, count, d, ReadData(bs, count, d).value)
    decreases count
  {
    hide Size, VectorBytes, ReadVector;
    SizeStep(0, d);
    if count > 0 {
      SizeStep(count - 1, d);
      if |bs| >= 4 * d {
        var v, rest := ReadVector(bs, d), bs[4 * d..];
        DataRead(rest, count - 1, d);
        VectorRead(bs, d);
        match ReadData(rest, count - 1, d)
        case None =>
        case Some(data) =>
          assert ([v] + data)[1..] == data;
          assert bs == bs[..4 * d] + rest;
      }
    }
  }

  /** A file is refused exactly if it is shorter than its header says; otherwise it starts with what
      saving the samples read from it would write. */
  lemma FileRead(bs: seq<Byte>)
    ensures ReadFile(bs).Some? <==> |bs| >= 16 && |bs| >= 16 + Size(Word64(bs, 0), Word64(bs, 8))
    ensures match ReadFile(bs)
            case None => true
            case Some((data, d)) => Uniform(data, d) && FileBytes(data, d) <= bs
  {
    hide Bytes, DataBytes, Number, Size, ReadData;
    if |bs| >= 16 {
      NumberIsWord(bs, 0);
      NumberIsWord(bs, 8);
      assert bs[0..8] == bs[..8];
      var count, d := Number(bs[..8]), Number(bs[8..16]);
      DataRead(bs[16..], count, d);
      BytesOfNumber(bs[..8]);
      BytesOfNumber(bs[8..16]);
      match ReadData(bs[16..], count, d)
      case None =>
      case Some(data) =>
        assert bs == bs[..8] + bs[8..16] + bs[16..];
    }
  }
}
