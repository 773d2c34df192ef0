/** The patch run of ftdizap's main: take a snapshot of the loaded image,
    apply the requested VID, PID and CBUS0..6 values in a fixed order,
    recompute the checksum, then write back to the device every word that
    differs from the snapshot. */
module FtdiZap {
  import opened Eeprom

  /** Word index of the USB vendor ID. */
  const VID_WORD: nat := 0x01

  /** Word index of the USB product ID. */
  const PID_WORD: nat := 0x02

  /** Byte offset of CBUS0; CBUS1 .. CBUS6 follow at 0x1B .. 0x20. */
  const CBUS_BYTE: nat := 0x1A

  /** The seven CBUS pin-function values, CBUS0 first. */
  type CbusValues = s: seq<int> | |s| == 7 witness [-1, -1, -1, -1, -1, -1, -1]

  /** The values requested on the command line; a negative value means
      "leave the field as it is". */
  datatype Options = Options(vid: int, pid: int, cbus: CbusValues)

  /** Every option at its default, -1. */
  const UNSET: Options := Options(-1, -1, [-1, -1, -1, -1, -1, -1, -1])

  /** Whether every requested value passes its setter's width assertion. */
  predicate Fits(o: Options) {
    o.vid < 0x10000 && o.pid < 0x10000 && forall i :: 0 <= i < 7 ==> o.cbus[i] < 0x100
  }

  /** Whether byte j belongs to one of the patched fields. */
  predicate InField(j: int) {
    2 * VID_WORD <= j <= 2 * PID_WORD + 1 || CBUS_BYTE <= j < CBUS_BYTE + 7
  }

  // ---------------------------------------------------------------------
  // Patch sequence

  /** The image after setting CBUS0 .. CBUS(k-1) under the byte rule, in
      ascending order. */
  function PutCbus(s: seq<byte>, cbus: CbusValues, k: nat): (t: seq<byte>)
    requires |s| == ELEN && k <= 7
    requires forall i :: 0 <= i < 7 ==> cbus[i] < 0x100
    ensures |t| == ELEN
  {
    if k == 0 then s else PutByte(PutCbus(s, cbus, k - 1), CBUS_BYTE + k - 1, cbus[k - 1])
  }

  /** The image after the setter calls of main, in their order: VID, PID,
      then CBUS0 .. CBUS6. */
  function Patched(s: seq<byte>, o: Options): (t: seq<byte>)
    requires |s| == ELEN && Fits(o)
    ensures |t| == ELEN
  {
    PutCbus(PutWord(PutWord(s, VID_WORD, o.vid), PID_WORD, o.pid), o.cbus, 7)
  }

  /** The patched image with its checksum stored. */
  function Finalized(s: seq<byte>, o: Options): (t: seq<byte>)
    requires |s| == ELEN && Fits(o)
    ensures |t| == ELEN
  {
    var p := Patched(s, o);
    PutWord(p, CHECKSUM_WORD, ChecksumOf(p) as int)
  }

  /** Runs the setter calls of main on the image, in their order. */
  method Patch(buf: array<byte>, o: Options)
    requires buf.Length == ELEN && Fits(o)
    modifies buf
    ensures buf[..] == Patched(old(buf[..]), o)
  {
    SetWord(buf, VID_WORD, o.vid);
    SetWord(buf, PID_WORD, o.pid);
    ghost var ids := buf[..];
    SetByte(buf, CBUS_BYTE + 0, o.cbus[0]);
    assert buf[..] == PutCbus(ids, o.cbus, 1);
    SetByte(buf, CBUS_BYTE + 1, o.cbus[1]);
    assert buf[..] == PutCbus(ids, o.cbus, 2);
    SetByte(buf, CBUS_BYTE + 2, o.cbus[2]);
    assert buf[..] == PutCbus(ids, o.cbus, 3);
    SetByte(buf, CBUS_BYTE + 3, o.cbus[3]);
    assert buf[..] == PutCbus(ids, o.cbus, 4);
    SetByte(buf, CBUS_BYTE + 4, o.cbus[4]);
    assert buf[..] == PutCbus(ids, o.cbus, 5);
    SetByte(buf, CBUS_BYTE + 5, o.cbus[5]);
    assert buf[..] == PutCbus(ids, o.cbus, 6);
    SetByte(buf, CBUS_BYTE + 6, o.cbus[6]);
  }

  /** Each of CBUS0 .. CBUS(k-1) ends at its requested value when that is
      non-negative and keeps its old value otherwise; no other byte changes. */
  lemma {:induction false} PutCbusFields(s: seq<byte>, cbus: CbusValues, k: nat)
    requires |s| == ELEN && k <= 7
    requires forall i :: 0 <= i < 7 ==> cbus[i] < 0x100
    ensures var t := PutCbus(s, cbus, k);
      && (forall i :: 0 <= i < k ==>
            t[CBUS_BYTE + i] as int == if cbus[i] >= 0 then cbus[i] else s[CBUS_BYTE + i] as int)
      && (forall j :: 0 <= j < ELEN && !(CBUS_BYTE <= j < CBUS_BYTE + k) ==> t[j] == s[j])
  {
    if k > 0 {
      PutCbusFields(s, cbus, k - 1);
    }
  }

  /** Each field ends at its requested value when that is non-negative and
      keeps its old value otherwise; no byte outside the fields changes. */
  lemma PatchedFields(s: seq<byte>, o: Options)
    requires |s| == ELEN && Fits(o)
    ensures var t := Patched(s, o);
      && GetWord(t, VID_WORD) == (if o.vid >= 0 then o.vid else GetWord(s, VID_WORD))
      && GetWord(t, PID_WORD) == (if o.pid >= 0 then o.pid else GetWord(s, PID_WORD))
      && (forall i :: 0 <= i < 7 ==>
            t[CBUS_BYTE + i] as int == if o.cbus[i] >= 0 then o.cbus[i] else s[CBUS_BYTE + i] as int)
      && (forall j :: 0 <= j < ELEN && !InField(j) ==> t[j] == s[j])
  {
    var t0 := PutWord(s, VID_WORD, o.vid);
    var t1 := PutWord(t0, PID_WORD, o.pid);
    var t := Patched(s, o);
    PutCbusFields(t1, o.cbus, 7);
    assert GetWord(t1, VID_WORD) == GetWord(t0, VID_WORD) by {
      WordEqualIffBytesEqual(t0, t1, VID_WORD);
    }
    assert GetWord(t, VID_WORD) == GetWord(t1, VID_WORD) by {
      WordEqualIffBytesEqual(t1, t, VID_WORD);
    }
    assert GetWord(t, PID_WORD) == GetWord(t1, PID_WORD) by {
      WordEqualIffBytesEqual(t1, t, PID_WORD);
    }
  }

  /** After the checksum, the fields are as after patching, word 0x7F holds
      the checksum of the patched image, and every other byte is as loaded. */
  lemma FinalizedFields(s: seq<byte>, o: Options)
    requires |s| == ELEN && Fits(o)
    ensures var p, t := Patched(s, o), Finalized(s, o);
      && GetWord(t, VID_WORD) == GetWord(p, VID_WORD)
      && GetWord(t, PID_WORD) == GetWord(p, PID_WORD)
      && (forall j :: CBUS_BYTE <= j < CBUS_BYTE + 7 ==> t[j] == p[j])
      && GetWord(t, CHECKSUM_WORD) == ChecksumOf(p) as int
      && (forall j :: 0 <= j < ELEN && !InField(j) && j != 2 * CHECKSUM_WORD && j != 2 * CHECKSUM_WORD + 1 ==>
            t[j] == s[j])
  {
    var p, t := Patched(s, o), Finalized(s, o);
    PatchedFields(s, o);
    WordEqualIffBytesEqual(p, t, VID_WORD);
    WordEqualIffBytesEqual(p, t, PID_WORD);
  }

  /** Setting CBUS bytes to the "not set" value changes nothing. */
  lemma {:induction false} UnsetCbusPatchNothing(s: seq<byte>, k: nat)
    requires |s| == ELEN && k <= 7
    ensures PutCbus(s, UNSET.cbus, k) == s
  {
    if k > 0 {
      UnsetCbusPatchNothing(s, k - 1);
    }
  }

  /** With no option given, patching changes nothing. */
  lemma UnsetOptionsPatchNothing(s: seq<byte>)
    requires |s| == ELEN
    ensures Patched(s, UNSET) == s
  {
    UnsetCbusPatchNothing(s, 7);
  }

  /** With no option given and a checksum already in place, the run leaves
      the image exactly as loaded. */
  lemma UnsetOptionsKeepImage(s: seq<byte>)
    requires |s| == ELEN
    requires GetWord(s, CHECKSUM_WORD) == ChecksumOf(s) as int
    ensures Finalized(s, UNSET) == s
  {
    UnsetOptionsPatchNothing(s);
  }

  // ---------------------------------------------------------------------
  // Differential write-back

  /** One EEPROM word write: the word index it addresses and the value. */
  datatype Write = Write(addr: nat, value: int)

  /** How a run ends. */
  datatype Status =
    | Done
    | WriteFailed(at: nat)   // the byte address whose word write failed
    | AssertFailed           // a requested value was too wide for its field

  /** Whether word i differs between the snapshot and the patched image. */
  predicate WordChanged(was: seq<byte>, now: seq<byte>, i: nat)
    requires 2 * i + 1 < |was| && 2 * i + 1 < |now|
  {
    was[2 * i] != now[2 * i] || was[2 * i + 1] != now[2 * i + 1]
  }

  /** The writes for the changed words among words 0 .. k-1, in ascending
      order, each carrying the patched value. */
  function Writes(was: seq<byte>, now: seq<byte>, k: nat): seq<Write>
    requires |was| == ELEN && |now| == ELEN && k <= WORDS
    decreases k, now  // now only keeps the verifier from unrolling all WORDS steps
  {
    if k == 0 then []
    else Writes(was, now, k - 1) +
         (if WordChanged(was, now, k - 1) then [Write(k - 1, GetWord(now, k - 1))] else [])
  }

  /** The writes for every changed word of the image. */
  function DiffWrites(was: seq<byte>, now: seq<byte>): seq<Write>
    requires |was| == ELEN && |now| == ELEN
  {
    Writes(was, now, WORDS)
  }

  /** What issuing the expected writes in order through transfer leads to:
      either all of them went through, or the writes up to and including the
      first that failed were issued and the run stopped there, with nothing
      undone. */
  predicate Attempted(expected: seq<Write>, transfer: Write -> bool, writes: seq<Write>, status: Status) {
    && (forall j :: 0 <= j < |writes| - 1 ==> transfer(writes[j]))
    && match status
       case Done =>
         writes == expected && (forall j :: 0 <= j < |writes| ==> transfer(writes[j]))
       case WriteFailed(at) =>
         && 0 < |writes| <= |expected|
         && writes == expected[..|writes|]
         && !transfer(writes[|writes| - 1])
         && at == 2 * writes[|writes| - 1].addr
       case AssertFailed => false
  }

  /** Writes back every word pair that differs from the snapshot, in
      ascending address order; transfer stands for the USB control transfer
      and says whether it succeeded. */
  method WriteBack(was: array<byte>, buf: array<byte>, transfer: Write -> bool)
    returns (writes: seq<Write>, status: Status)
    requires was.Length == ELEN && buf.Length == ELEN
    ensures Attempted(DiffWrites(was[..], buf[..]), transfer, writes, status)
  {
    writes := [];
    var a := 0;
    while a < ELEN
      invariant 0 <= a <= ELEN && a % 2 == 0
      invariant writes == Writes(was[..], buf[..], a / 2)
      invariant forall j :: 0 <= j < |writes| ==> transfer(writes[j])
    {
      if was[a] != buf[a] || was[a + 1] != buf[a + 1] {
        var w := Write(a / 2, GetWord(buf[..], a / 2));
        writes := writes + [w];
        if !transfer(w) {
          WritesPrefix(was[..], buf[..], a / 2 + 1, WORDS);
          AttemptedStop(DiffWrites(was[..], buf[..]), transfer, writes);
          return writes, WriteFailed(a);
        }
      }
      a := a + 2;
    }
    status := Done;
  }

  /** Stopping at the first write the device refuses is a possible outcome. */
  lemma AttemptedStop(expected: seq<Write>, transfer: Write -> bool, writes: seq<Write>)
    requires 0 < |writes| && writes <= expected
    requires forall j :: 0 <= j < |writes| - 1 ==> transfer(writes[j])
    requires !transfer(writes[|writes| - 1])
    ensures Attempted(expected, transfer, writes, WriteFailed(2 * writes[|writes| - 1].addr))
  {
  }

  /** The writes for fewer words are a prefix of those for more words. */
  lemma {:induction false} WritesPrefix(was: seq<byte>, now: seq<byte>, k: nat, m: nat)
    requires |was| == ELEN && |now| == ELEN && k <= m <= WORDS
    ensures Writes(was, now, k) <= Writes(was, now, m)
    decreases m - k
  {
    if k < m {
      WritesPrefix(was, now, k, m - 1);
    }
  }

  /** Every write addresses a changed word below k and carries its patched
      value. */
  lemma {:induction false} WritesSound(was: seq<byte>, now: seq<byte>, k: nat)
    requires |was| == ELEN && |now| == ELEN && k <= WORDS
    ensures forall w :: w in Writes(was, now, k) ==>
              w.addr < k && WordChanged(was, now, w.addr) && w.value == GetWord(now, w.addr)
  {
    if k > 0 {
      WritesSound(was, now, k - 1);
    }
  }

  /** Every changed word below k has its write. */
  lemma {:induction false} WritesComplete(was: seq<byte>, now: seq<byte>, k: nat)
    requires |was| == ELEN && |now| == ELEN && k <= WORDS
    ensures forall i :: 0 <= i < k && WordChanged(was, now, i) ==>
              Write(i, GetWord(now, i)) in Writes(was, now, k)
  {
    if k > 0 {
      WritesComplete(was, now, k - 1);
    }
  }

  /** The writes come in strictly ascending address order, so no word is
      written twice. */
  lemma {:induction false} WritesAscending(was: seq<byte>, now: seq<byte>, k: nat)
    requires |was| == ELEN && |now| == ELEN && k <= WORDS
    ensures forall p, q :: 0 <= p < q < |Writes(was, now, k)| ==>
              Writes(was, now, k)[p].addr < Writes(was, now, k)[q].addr
  {
    if k > 0 {
      WritesAscending(was, now, k - 1);
      WritesSound(was, now, k - 1);
      var ws := Writes(was, now, k - 1);
      assert forall p :: 0 <= p < |ws| ==> ws[p] in ws;
    }
  }

  /** An image equal to its snapshot gives no writes. */
  lemma {:induction false} UnchangedImageNoWrites(s: seq<byte>, k: nat)
    requires |s| == ELEN && k <= WORDS
    ensures Writes(s, s, k) == []
  {
    if k > 0 {
      UnchangedImageNoWrites(s, k - 1);
    }
  }

  /** A write is issued for word i exactly when that word's value changed. */
  lemma DiffWritesExactly(was: seq<byte>, now: seq<byte>, i: nat)
    requires |was| == ELEN && |now| == ELEN && i < WORDS
    ensures (exists w :: w in DiffWrites(was, now) && w.addr == i) <==> GetWord(was, i) != GetWord(now, i)
  {
    WritesSound(was, now, WORDS);
    WritesComplete(was, now, WORDS);
    WordEqualIffBytesEqual(was, now, i);
    if GetWord(was, i) != GetWord(now, i) {
      assert Write(i, GetWord(now, i)) in DiffWrites(was, now);
    }
  }

  /** The outcome of issuing the writes is determined by the writes expected
      and by which of them the device accepts. */
  lemma AttemptedDeterministic(expected: seq<Write>, transfer: Write -> bool,
                               w1: seq<Write>, s1: Status, w2: seq<Write>, s2: Status)
    requires Attempted(expected, transfer, w1, s1)
    requires Attempted(expected, transfer, w2, s2)
    ensures w1 == w2 && s1 == s2
  {
  }


  /** The writes below k when exactly words 0x01 and 0x1A changed. */
  lemma {:induction false} WritesForTwoChangedWords(was: seq<byte>, now: seq<byte>, k: nat)
    requires |was| == ELEN && |now| == ELEN && k <= WORDS
    requires forall i :: 0 <= i < WORDS ==> (WordChanged(was, now, i) <==> i == 0x01 || i == 0x1A)
    ensures Writes(was, now, k) ==
            (if k <= 0x01 then []
             else if k <= 0x1A then [Write(0x01, GetWord(now, 0x01))]
             else [Write(0x01, GetWord(now, 0x01)), Write(0x1A, GetWord(now, 0x1A))])
  {
    if k > 0 {
      WritesForTwoChangedWords(was, now, k - 1);
    }
  }

  /** Images that differ only in words 0x01 and 0x1A give exactly two writes,
      at those words, carrying the new values. */
  lemma TwoChangedWordsTwoWrites(was: seq<byte>, now: seq<byte>)
    requires |was| == ELEN && |now| == ELEN
    requires forall i :: 0 <= i < WORDS ==> (WordChanged(was, now, i) <==> i == 0x01 || i == 0x1A)
    ensures DiffWrites(was, now) == [Write(0x01, GetWord(now, 0x01)), Write(0x1A, GetWord(now, 0x1A))]
  {
    WritesForTwoChangedWords(was, now, WORDS);
  }

  // ---------------------------------------------------------------------
  // The whole run

  /** The part of main after the image is loaded: snapshot, patch, checksum,
      differential write-back. */
  method Run(buf: array<byte>, o: Options, transfer: Write -> bool)
    returns (writes: seq<Write>, status: Status)
    requires buf.Length == ELEN
    modifies buf
    ensures status == AssertFailed <==> !Fits(o)
    ensures status == AssertFailed ==> writes == []
    ensures !Fits(o) ==> buf[..] == old(buf[..])
    ensures Fits(o) ==> buf[..] == Finalized(old(buf[..]), o)
    ensures Fits(o) ==> Attempted(DiffWrites(old(buf[..]), buf[..]), transfer, writes, status)
  {
    var was := new byte[ELEN];
    forall i | 0 <= i < ELEN {
      was[i] := buf[i];
    }
    assert was[..] == old(buf[..]);
    assert buf[..] == old(buf[..]);
    if !Fits(o) {
      // a setter's width assertion fails and the run aborts before any write
      return [], AssertFailed;
    }
    Patch(buf, o);
    ghost var patched := buf[..];
    Checksum(buf);
    assert buf[..] == PutWord(patched, CHECKSUM_WORD, ChecksumOf(patched) as int);
    assert was[..] == old(buf[..]);
    writes, status := WriteBack(was, buf, transfer);
  }
}
