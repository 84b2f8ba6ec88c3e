/** What a read returns: a function of what the handle cached at Open, the offset and the length. */
module ReadEngine {
  import opened MachineInts
  import opened Generator
  import opened Fingerprint

  /** The part of a file record that a handle copies at Open and reads from ever after. */
  datatype View = View(size: u64, isRandom: bool, ino: u64)

  /** How many of blen bytes the file has at this offset. */
  function Clamp(v: View, offset: s64, blen: nat): nat {
    if offset < 0 || offset >= v.size then 0 else Min(blen, v.size - offset)
  }

  /** Byte j of a read that starts at `offset`. */
  function ByteAt(v: View, offset: s64, j: nat): byte
    requires 0 <= offset
  {
    if v.isRandom then TopByte(State(j + 1, Seed(offset, v.ino))) else 0
  }

  function Content(v: View, offset: s64, blen: nat): (r: seq<byte>)
    ensures |r| == Clamp(v, offset, blen)
    ensures forall j :: 0 <= j < |r| ==> r[j] == ByteAt(v, offset, j)
  {
    var n := Clamp(v, offset, blen);
    if n == 0 then [] else seq(n, j requires 0 <= j => ByteAt(v, offset, j))
  }

  /** Memory after `bytes` have been written to it at `at`. */
  function Patch(mem: seq<byte>, at: nat, bytes: seq<byte>): (r: seq<byte>)
    requires at + |bytes| <= |mem|
    ensures |r| == |mem|
    ensures forall i :: 0 <= i < |mem| ==> r[i] == if at <= i < at + |bytes| then bytes[i - at] else mem[i]
  {
    mem[..at] + bytes + mem[at + |bytes|..]
  }

  /** What a read returns, in full: as many bytes as asked for or left, of a stream seeded by offset XOR inode. */
  lemma ContentIs(size: u64, isRandom: bool, ino: u64, offset: s64, blen: u64)
    ensures var n := if 0 <= offset < size then (if blen <= size - offset then blen else size - offset) else 0;
            var bytes := Content(View(size, isRandom, ino), offset, blen);
            && |bytes| == n && S64(n) == (if n < TWO63 then n else n - TWO64)
            && forall j :: 0 <= j < n ==>
                 bytes[j] == if isRandom then TopByte(State(j + 1, Seed(offset, ino))) else 0
  {
    var v := View(size, isRandom, ino);
    var bytes := Content(v, offset, blen);
    forall j | 0 <= j < |bytes|
      ensures bytes[j] == if isRandom then TopByte(State(j + 1, Seed(offset, ino))) else 0
    {
      assert bytes[j] == ByteAt(v, offset, j);
    }
  }

  /** Two handles on one file agree on every byte both return, whatever sizes they cached. */
  lemma ShorterReadIsPrefix(v1: View, v2: View, offset: s64, blen1: nat, blen2: nat)
    requires v1.isRandom == v2.isRandom && v1.ino == v2.ino
    requires Clamp(v1, offset, blen1) <= Clamp(v2, offset, blen2)
    ensures Content(v1, offset, blen1) <= Content(v2, offset, blen2)
  {
    var c1, c2 := Content(v1, offset, blen1), Content(v2, offset, blen2);
    assert c1 == c2[..|c1|];
  }

  /** A read of a zero file may be cut in two anywhere. */
  lemma ZeroReadSplits(v: View, offset: s64, a: nat, b: nat)
    requires !v.isRandom && 0 <= offset && offset + a < TWO63
    ensures Content(v, offset, a + b) == Content(v, offset, a) + Content(v, offset + a, b)
  {
    var whole, parts := Content(v, offset, a + b), Content(v, offset, a) + Content(v, offset + a, b);
    assert |whole| == |parts|;
    assert whole == parts;
  }

  /** j steps after the cut, a read that starts there is where the uncut read is. */
  predicate InStepAt(ino: u64, offset: nat, a: nat, j: nat)
    requires offset + a < TWO63
  {
    State(a + j, Seed(offset, ino)) == State(j, Seed(offset + a, ino))
  }

  /** A read that starts at the cut goes on with the very stream of the read before it. */
  predicate InStep(ino: u64, offset: nat, a: nat)
    requires offset + a < TWO63
  {
    State(a, Seed(offset, ino)) == Seed(offset + a, ino)
  }

  /** Cutting a random read keeps the generator in step from the cut on, or never again. */
  lemma RandomSplitAllOrNothing(ino: u64, offset: nat, a: nat, j: nat)
    requires offset + a < TWO63
    ensures InStepAt(ino, offset, a, j) <==> InStep(ino, offset, a)
  {
    StateSplit(a, j, Seed(offset, ino));
    if InStepAt(ino, offset, a, j) {
      StateInjective(j, State(a, Seed(offset, ino)), Seed(offset + a, ino));
    }
  }

  /** Byte j after the cut is the one that the uncut read has there. */
  predicate SameAfterCut(v: View, offset: nat, a: nat, j: nat)
    requires offset + a < TWO63
  {
    ByteAt(v, offset, a + j) == ByteAt(v, offset + a, j)
  }

  lemma JoinedIs<T>(whole: seq<T>, head: seq<T>, tail: seq<T>)
    requires |whole| == |head| + |tail| && whole[..|head|] == head
    ensures whole == head + tail <==> forall j :: 0 <= j < |tail| ==> whole[|head| + j] == tail[j]
  {
    assert whole == whole[..|head|] + whole[|head|..];
    if forall j :: 0 <= j < |tail| ==> whole[|head| + j] == tail[j] {
      assert whole[|head|..] == tail;
    } else {
      var j :| 0 <= j < |tail| && whole[|head| + j] != tail[j];
      assert (head + tail)[|head| + j] == tail[j];
    }
  }

  /** A cut read returns what the uncut one does exactly if every byte after the cut is the same. */
  lemma CutBytes(v: View, offset: s64, a: nat, b: nat)
    requires 0 <= offset && offset + a < TWO63
    ensures Content(v, offset, a + b) == Content(v, offset, a) + Content(v, offset + a, b)
            <==> forall j :: 0 <= j < Clamp(v, offset + a, b) ==> SameAfterCut(v, offset, a, j)
  {
    var whole, head, tail := Content(v, offset, a + b), Content(v, offset, a), Content(v, offset + a, b);
    assert |whole| == |head| + |tail|;
    assert whole[..|head|] == head;
    JoinedIs(whole, head, tail);
    assert tail != [] ==> |head| == a;
    forall j | 0 <= j < |tail| ensures whole[|head| + j] == tail[j] <==> SameAfterCut(v, offset, a, j) {
      assert whole[|head| + j] == ByteAt(v, offset, a + j);
    }
  }

  lemma FirstStates()
    ensures State(1, 0) == C && State(1, 1) == 7806831264735756412 && State(2, 1) == 9396908728118811419
  {
    assert State(0, 0) == 0 && State(0, 1) == 1;
    assert State(1, 1) == Next(1) == 7806831264735756412;
  }

  /** For one: the first file made has inode 1, and if it is random it begins with these two bytes. */
  lemma FirstBytes()
    ensures Content(View(16, true, 1), 0, 2) == [0x6C, 0x82]
  {
    var v := View(16, true, 1);
    assert Xor(0, 1) == 1 by { assert Xor(0, 0) == 0; }
    FirstStates();
    var bytes := Content(v, 0, 2);
    assert bytes[0] == ByteAt(v, 0, 0) == TopByte(State(1, 1)) == 0x6C;
    assert bytes[1] == ByteAt(v, 0, 1) == TopByte(State(2, 1)) == 0x82;
  }

  /**
   A random read may not be cut: every read starts its own stream from its own offset. The first
   file made (inode 1) has 0x82 at offset 1 when read from the start, 0x14 when read there.
   */
  lemma RandomReadDoesNotSplit()
    ensures var v := View(2, true, 1);
            Content(v, 0, 2) != Content(v, 0, 1) + Content(v, 1, 1)
  {
    var v := View(2, true, 1);
    assert Xor(0, 1) == 1 && Xor(1, 1) == 0 by { assert Xor(0, 0) == 0; }
    FirstStates();
    assert !SameAfterCut(v, 0, 1, 0);
    CutBytes(v, 0, 1, 1);
  }

  lemma AfterCutIs(v: View, offset: nat, a: nat, j: nat)
    requires v.isRandom && offset + a < TWO63
    ensures SameAfterCut(v, offset, a, j) <==> SameByte(State(a, Seed(offset, v.ino)), Seed(offset + a, v.ino), j + 1)
  {
    StateSplit(a, j + 1, Seed(offset, v.ino));
  }

  /** In step, every byte is the same; out of step, one of the first ten is not. */
  lemma StepShows(v: View, offset: nat, a: nat, n: nat)
    requires v.isRandom && offset + a < TWO63
    ensures InStep(v.ino, offset, a) ==> forall j :: 0 <= j < n ==> SameAfterCut(v, offset, a, j)
    ensures !InStep(v.ino, offset, a) ==> exists j :: 0 <= j < 10 && !SameAfterCut(v, offset, a, j)
  {
    var s, t := State(a, Seed(offset, v.ino)), Seed(offset + a, v.ino);
    if s == t {
      forall j | 0 <= j < n ensures SameAfterCut(v, offset, a, j) {
        AfterCutIs(v, offset, a, j);
      }
    } else {
      TenBytesTell(s, t, 1);
      var i :| 1 <= i < 11 && !SameByte(s, t, i);
      AfterCutIs(v, offset, a, i - 1);
      assert !SameAfterCut(v, offset, a, i - 1);
    }
  }

  /**
   When a random read may be cut in two: always if the second read finds the generator in step, and
   never if it does not and there are ten bytes or more after the cut. With fewer, the bytes
   themselves decide, and up to nine can agree by accident.
   */
  lemma RandomReadSplits(v: View, offset: s64, a: nat, b: nat)
    requires v.isRandom && 0 <= offset && offset + a < TWO63
    ensures var n := Clamp(v, offset + a, b);
            var same := Content(v, offset, a + b) == Content(v, offset, a) + Content(v, offset + a, b);
            && (InStep(v.ino, offset, a) ==> same)
            && (n >= 10 ==> (same <==> InStep(v.ino, offset, a)))
            && (same <==> forall j :: 0 <= j < Min(n, 10) ==> SameAfterCut(v, offset, a, j))
  {
    var n := Clamp(v, offset + a, b);
    CutBytes(v, offset, a, b);
    StepShows(v, offset, a, n);
  }

  /**
   The streams before and after the cut are one stream exactly if they are in step, byte for byte; and
   their states agree at one step only if they agree at all of them.
   */
  lemma RandomStreamSplits(v: View, offset: nat, a: nat)
    requires v.isRandom && offset + a < TWO63
    ensures (forall j: nat :: SameAfterCut(v, offset, a, j)) <==> InStep(v.ino, offset, a)
    ensures forall j: nat :: InStepAt(v.ino, offset, a, j) <==> InStep(v.ino, offset, a)
  {
    forall j: nat ensures InStepAt(v.ino, offset, a, j) <==> InStep(v.ino, offset, a) {
      RandomSplitAllOrNothing(v.ino, offset, a, j);
    }
    StepShows(v, offset, a, 0);
    forall j: nat | InStep(v.ino, offset, a) ensures SameAfterCut(v, offset, a, j) {
      AfterCutIs(v, offset, a, j);
    }
  }

  lemma {:induction false} XorZero(x: nat)
    ensures Xor(0, x) == x
  {
    if x > 0 {
      XorZero(x / 2);
    }
  }

  lemma XorsOfSeven(q: nat)
    ensures Xor(3, 8 * q + 7) == 8 * q + 4 && Xor(4, 8 * q + 7) == 8 * q + 3
  {
    assert Xor(3, 8 * q + 7) == 2 * Xor(1, 4 * q + 3) == 4 * Xor(0, 2 * q + 1) == 8 * q + 4 by { XorZero(2 * q + 1); }
    assert Xor(1, 2 * q + 1) == 2 * Xor(0, q) == 2 * q by { XorZero(q); }
    assert Xor(4, 8 * q + 7) == 1 + 2 * Xor(2, 4 * q + 3) == 3 + 4 * Xor(1, 2 * q + 1);
  }

  lemma InStepAtThree(q: nat)
    requires 8 * q + 7 < TWO64 && Next(8 * q + 4) == 8 * q + 3
    ensures InStep(8 * q + 7, 3, 1)
  {
    XorsOfSeven(q);
    assert State(1, 8 * q + 4) == Next(State(0, 8 * q + 4));
  }

  /** Cuts in step are rare, but there are some: this file may be cut between offsets 3 and 4. */
  lemma SomeReadsSplit() returns (ino: u64)
    ensures ino == 1768582672822882695 && InStep(ino, 3, 1)
  {
    var q: nat :| q == 221072834102860336;
    InStepAtThree(q);
    ino := 8 * q + 7;
  }

  /**
   Ten bytes tell reads of random files apart: whatever the files, their sizes and the offsets, two reads
   that return ten bytes or more begin with the same ten exactly if offset XOR inode is the same.
   */
  lemma TenBytesTellReads(v1: View, o1: s64, b1: nat, v2: View, o2: s64, b2: nat)
    requires v1.isRandom && v2.isRandom && 0 <= o1 && 0 <= o2
    requires Clamp(v1, o1, b1) >= 10 && Clamp(v2, o2, b2) >= 10
    ensures Content(v1, o1, b1)[..10] == Content(v2, o2, b2)[..10] <==> Xor(o1, v1.ino) == Xor(o2, v2.ino)
  {
    var s, t := Seed(o1, v1.ino), Seed(o2, v2.ino);
    var c1, c2 := Content(v1, o1, b1), Content(v2, o2, b2);
    forall j | 0 <= j < 10 ensures c1[j] == c2[j] <==> SameByte(s, t, j + 1) {
      assert c1[j] == ByteAt(v1, o1, j) && c2[j] == ByteAt(v2, o2, j);
    }
    TenBytesTell(s, t, 1);
    if c1[..10] == c2[..10] {
      forall i | 1 <= i < 11 ensures SameByte(s, t, i) {
        assert c1[..10][i - 1] == c2[..10][i - 1];
      }
    } else {
      assert exists j :: 0 <= j < 10 && c1[j] != c2[j];
    }
  }

  /** So reads of one random file at two offsets differ in their first ten bytes. */
  lemma OffsetsShow(v1: View, o1: s64, b1: nat, v2: View, o2: s64, b2: nat)
    requires v1.isRandom && v2.isRandom && v1.ino == v2.ino && 0 <= o1 && 0 <= o2 && o1 != o2
    requires Clamp(v1, o1, b1) >= 10 && Clamp(v2, o2, b2) >= 10
    ensures Content(v1, o1, b1)[..10] != Content(v2, o2, b2)[..10]
  {
    TenBytesTellReads(v1, o1, b1, v2, o2, b2);
    XorUndoes(o1, v1.ino);
    XorUndoes(o2, v2.ino);
  }

  /** And so do reads of two random files at one offset. */
  lemma FilesShow(v1: View, v2: View, offset: s64, b1: nat, b2: nat)
    requires v1.isRandom && v2.isRandom && v1.ino != v2.ino && 0 <= offset
    requires Clamp(v1, offset, b1) >= 10 && Clamp(v2, offset, b2) >= 10
    ensures Content(v1, offset, b1)[..10] != Content(v2, offset, b2)[..10]
  {
    TenBytesTellReads(v1, offset, b1, v2, offset, b2);
    XorCommutes(offset, v1.ino);
    XorCommutes(offset, v2.ino);
    XorUndoes(v1.ino, offset);
    XorUndoes(v2.ino, offset);
  }

  /** Nine bytes are not enough: two files that begin with the same nine and differ in the tenth. */
  lemma NineBytesMayAgree()
    ensures var v1, v2 := View(10, true, LOOKALIKE1), View(10, true, LOOKALIKE2);
            Content(v1, 0, 9) == Content(v2, 0, 9) && Content(v1, 0, 10) != Content(v2, 0, 10)
  {
    var v1, v2 := View(10, true, LOOKALIKE1), View(10, true, LOOKALIKE2);
    XorZero(LOOKALIKE1);
    XorZero(LOOKALIKE2);
    NineBytesDoNotTell();
    forall j | 0 <= j < 10 ensures ByteAt(v1, 0, j) == ByteAt(v2, 0, j) <==> j < 9 {
      assert SameByte(LOOKALIKE1, LOOKALIKE2, j + 1) <==> j < 9;
    }
    assert Content(v1, 0, 10)[9] != Content(v2, 0, 10)[9];
  }
}
