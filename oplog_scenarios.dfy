/** Walks of test/browser/oplog.spec.ts on the log model: a writer log
    flushes headers and appends entries, and a second log opened on the
    same file reads back what the writer left. The checksum `crc` is any
    function; where a walk corrupts bytes, it says what the checksum must
    tell apart. */
module OplogScenarios {
  import opened Bytes
  import opened Errors
  import opened Oplog

  /** `new Oplog(storage)` on the file of a log in step with it, then
      `open()`: the header and entries that log holds. */
  method Reopen(log: Log) returns (r: Result<(Option<seq<byte>>, seq<seq<byte>>)>)
    requires log.Synced()
    ensures r == Ok((HeaderOf(log.head), log.entries))
  {
    var reader := new Log(log.crc, log.storage);
    r := reader.Open();
  }

  /** The log holds what its file recovers to, and nothing follows. */
  ghost predicate InStep(log: Log)
    reads log
  {
    log.Valid() && log.Synced() && log.Clean()
  }

  /** A new log on an empty file, opened: nothing recovered. */
  method Fresh(crc: seq<byte> -> nat) returns (log: Log)
    ensures fresh(log) && log.crc == crc && log.head == None && log.entries == [] && InStep(log)
  {
    RecoverEmpty(crc);
    log := new Log(crc, []);
    var r := log.Open();
  }

  /** A new log on an empty file with `header` flushed into slot 0. */
  method Started(crc: seq<byte> -> nat, header: seq<byte>) returns (log: Log, r: Result<(Option<seq<byte>>, seq<seq<byte>>)>)
    requires 16 + |header| <= SLOT_SIZE
    ensures fresh(log) && log.crc == crc && InStep(log) && log.entries == [] && |log.storage| == ENTRIES_AT
    ensures log.head == Some(Head(0, 0, header)) && r == Ok((Some(header), []))
  {
    log := Fresh(crc);
    r := FlushReopen(log, header);
  }

  /** `flush(header)` on a log in step with its file, then a reader's
      `open()`: the header lands in the other slot with the next version,
      and the reader finds it with no entries. */
  method FlushReopen(log: Log, header: seq<byte>) returns (r: Result<(Option<seq<byte>>, seq<seq<byte>>)>)
    requires InStep(log) && NextVersion(log.head) < TWO_64 && 16 + |header| <= SLOT_SIZE
    modifies log
    ensures InStep(log) && log.entries == [] && |log.storage| == ENTRIES_AT
    ensures log.head == Some(Head(NextSlot(old(log.head)), NextVersion(old(log.head)), header))
    ensures r == Ok((Some(header), []))
  {
    var f := log.Flush(header, false, true);
    r := Reopen(log);
  }

  /** `FlushReopen` that also keeps what the slot it does not write holds. */
  method FlushKeeping(log: Log, header: seq<byte>, ghost kept: Slot) returns (r: Result<(Option<seq<byte>>, seq<seq<byte>>)>)
    requires InStep(log) && NextVersion(log.head) < TWO_64 && 16 + |header| <= SLOT_SIZE
    requires ReadSlot(log.crc, log.storage, 1 - NextSlot(log.head)) == Some(kept)
    modifies log
    ensures InStep(log) && log.entries == [] && |log.storage| == ENTRIES_AT
    ensures log.head == Some(Head(NextSlot(old(log.head)), NextVersion(old(log.head)), header))
    ensures ReadSlot(log.crc, log.storage, 1 - NextSlot(old(log.head))) == Some(kept)
    ensures r == Ok((Some(header), []))
  {
    var f := log.Flush(header, false, true);
    r := Reopen(log);
  }

  /** Headers `a` and then `b` flushed into a new log, into slots 0 and 1:
      both slots read. */
  method TwoHeaders(crc: seq<byte> -> nat, a: seq<byte>, b: seq<byte>)
    returns (log: Log, slots: seq<nat>, r1: Result<(Option<seq<byte>>, seq<seq<byte>>)>, r2: Result<(Option<seq<byte>>, seq<seq<byte>>)>)
    requires 16 + |a| <= SLOT_SIZE && 16 + |b| <= SLOT_SIZE
    ensures fresh(log) && log.crc == crc && InStep(log) && log.entries == [] && |log.storage| == ENTRIES_AT
    ensures log.head == Some(Head(1, 1, b)) && slots == [0, 1]
    ensures r1 == Ok((Some(a), [])) && r2 == Ok((Some(b), []))
    ensures ReadSlot(crc, log.storage, 0) == Some(Slot(0, a)) && ReadSlot(crc, log.storage, 1) == Some(Slot(1, b))
  {
    log, r1 := Started(crc, a);
    slots := [log.head.value.slot];
    assert ReadSlot(crc, log.storage, 0) == Some(Slot(0, a));
    r2 := FlushKeeping(log, b, Slot(0, a));
    slots := slots + [log.head.value.slot];
  }

  /** `append(batch)` on a log in step with its file, then a reader's
      `open()`: the reader finds the header and the entries followed by
      the batch. */
  method AppendReopen(log: Log, batch: seq<seq<byte>>) returns (r: Result<(Option<seq<byte>>, seq<seq<byte>>)>)
    requires InStep(log) && Fits(batch)
    modifies log
    ensures InStep(log) && log.head == old(log.head) && log.entries == old(log.entries) + batch
    ensures log.length == old(log.length) + |batch| && log.byteLength == old(log.byteLength) + Framed(batch)
    ensures r == Ok((HeaderOf(log.head), old(log.entries) + batch))
  {
    log.Append(batch, true);
    r := Reopen(log);
  }

  /** oplog.spec.ts:38-85: header "h" with entries "a" and "b"; after
      flushing "i" the entries are gone; then "c" follows "i". */
  method BasicAppend(crc: seq<byte> -> nat)
    returns (r1: Result<(Option<seq<byte>>, seq<seq<byte>>)>,
             r2: Result<(Option<seq<byte>>, seq<seq<byte>>)>,
             r3: Result<(Option<seq<byte>>, seq<seq<byte>>)>)
    ensures r1 == Ok((Some([104]), [[97], [98]]))
    ensures r2 == Ok((Some([105]), []))
    ensures r3 == Ok((Some([105]), [[99]]))
  {
    var log, r0 := Started(crc, [104]);
    assert log.head == Some(Head(0, 0, [104]));
    r0 := AppendReopen(log, [[97]]);
    r1 := AppendReopen(log, [[98]]);
    assert log.entries == [[97], [98]];
    r2 := FlushReopen(log, [105]);
    assert log.head == Some(Head(1, 1, [105]));
    r3 := AppendReopen(log, [[99]]);
    assert log.entries == [[99]];
  }

  /** oplog.spec.ts:114-147: flushes alternate between the two slots and
      the last one flushed is the header read back. */
  method AlternatingHeaders(crc: seq<byte> -> nat)
    returns (slots: seq<nat>, r1: Result<(Option<seq<byte>>, seq<seq<byte>>)>,
             r2: Result<(Option<seq<byte>>, seq<seq<byte>>)>,
             r3: Result<(Option<seq<byte>>, seq<seq<byte>>)>)
    ensures slots == [0, 1, 0, 1]
    ensures r1 == Ok((Some([50]), [])) && r2 == Ok((Some([49]), [])) && r3 == Ok((Some([50]), []))
  {
    var log, r0;
    log, slots, r0, r1 := TwoHeaders(crc, [49], [50]);
    r2 := FlushReopen(log, [49]);
    assert log.head == Some(Head(0, 2, [49]));
    slots := slots + [log.head.value.slot];
    r3 := FlushReopen(log, [50]);
    assert log.head == Some(Head(1, 3, [50]));
    slots := slots + [log.head.value.slot];
  }

  /** oplog.spec.ts:302-349: a flush whose header write fails reports the
      failure and leaves header and entries readable; once writes succeed
      again the flush goes through and the entries are cut away. */
  method HeaderWriteFails(crc: seq<byte> -> nat)
    returns (failed: Result<()>, r1: Result<(Option<seq<byte>>, seq<seq<byte>>)>,
             r2: Result<(Option<seq<byte>>, seq<seq<byte>>)>)
    ensures failed == Err(WriteFailed)
    ensures r1 == Ok((Some([104]), [[97], [98]]))
    ensures r2 == Ok((Some([104, 50]), []))
  {
    var log, r0 := Started(crc, [104]);
    assert log.head == Some(Head(0, 0, [104]));
    r0 := AppendReopen(log, [[97]]);
    r0 := AppendReopen(log, [[98]]);
    assert log.entries == [[97], [98]];
    failed := log.Flush([104, 50], true, true);
    r1 := Reopen(log);
    r2 := FlushReopen(log, [104, 50]);
  }

  /** The four entries both multi-append walks write in one append. */
  function Four(): seq<seq<byte>>
  {
    [[49], [50, 50], [51, 51, 51], [52]]
  }

  /** oplog.spec.ts:351-384: one append of four entries counts four
      entries and 32 + 7 bytes, and reads back whole. */
  method MultiAppend(crc: seq<byte> -> nat)
    returns (length: nat, byteLength: nat, r: Result<(Option<seq<byte>>, seq<seq<byte>>)>)
    ensures length == 4 && byteLength == 32 + 1 + 2 + 3 + 1
    ensures r == Ok((Some([97]), Four()))
  {
    var log, r0 := Started(crc, [97]);
    r := AppendReopen(log, Four());
    FourFramed();
    length, byteLength := log.length, log.byteLength;
  }

  /** `append(batch)` on a log whose file ends at its kept frames: the
      frames are added at the end of the file. */
  method AppendAtEnd(log: Log, batch: seq<seq<byte>>)
    requires InStep(log) && Fits(batch) && |log.storage| == ENTRIES_AT + log.byteLength
    modifies log
    ensures InStep(log) && log.head == old(log.head) && log.entries == old(log.entries) + batch
    ensures log.length == old(log.length) + |batch| && log.byteLength == old(log.byteLength) + Framed(batch)
    ensures log.storage == old(log.storage) + EncodeBatch(log.crc, batch)
    ensures |log.storage| == ENTRIES_AT + log.byteLength
  {
    ghost var s := log.storage;
    log.Append(batch, true);
    assert s[..|s|] == s;
  }

  /** oplog.spec.ts:386-423: after appending "0" and then four entries at
      once, the last byte written is overwritten with "x" and the log is
      opened again: all four entries are dropped and one is left. The
      checksum is taken to tell the last frame's body from the body with
      its last byte set to "x". */
  method AtomicAppend(crc: seq<byte> -> nat)
    returns (length: nat, byteLength: nat, r: Result<(Option<seq<byte>>, seq<seq<byte>>)>, reopened: nat)
    requires Detects(crc, [52], 120)
    ensures length == 5 && byteLength == 40 + 1 + 1 + 2 + 3 + 1
    ensures r == Ok((Some([97]), [[48]])) && reopened == 1
  {
    var log := StartedWith(crc, [97], [48]);
    length, byteLength, r, reopened := FourThenCorrupt(log);
  }

  /** `append(Four())` at the end of the file of a log in step with it,
      then the last byte written overwritten with "x" and the log opened
      again: it is back where it was before the append. */
  method FourThenCorrupt(log: Log) returns (length: nat, byteLength: nat, r: Result<(Option<seq<byte>>, seq<seq<byte>>)>, reopened: nat)
    requires Detects(log.crc, [52], 120)
    requires InStep(log) && |log.storage| == ENTRIES_AT + log.byteLength
    modifies log
    ensures length == old(log.length) + 4 && byteLength == old(log.byteLength) + 39
    ensures r == Ok((HeaderOf(old(log.head)), old(log.entries))) && reopened == old(log.length)
  {
    ghost var s, head, entries, kept := log.storage, log.head, log.entries, log.byteLength;
    AppendAtEnd(log, Four());
    FourFramed();
    length, byteLength := log.length, log.byteLength;
    Corrupt(log, s, head, entries, kept);
    r := log.Open();
    reopened := log.length;
  }

  /** `Started`, then one entry appended. */
  method StartedWith(crc: seq<byte> -> nat, header: seq<byte>, entry: seq<byte>) returns (log: Log)
    requires 16 + |header| <= SLOT_SIZE && |entry| < MAX_PAYLOAD
    ensures fresh(log) && log.crc == crc && InStep(log) && log.head == Some(Head(0, 0, header))
    ensures log.entries == [entry] && log.length == 1 && log.byteLength == 8 + |entry|
    ensures |log.storage| == ENTRIES_AT + log.byteLength
  {
    var r;
    log, r := Started(crc, header);
    AppendAtEnd(log, [entry]);
    FramedSingle(entry);
  }

  /** `storage.write(8192 + log.byteLength - 1, "x")` on a log whose last
      append wrote `Four()` at the end of a file that recovered to `entries`. */
  method Corrupt(log: Log, ghost s: seq<byte>, ghost head: Option<Head>, ghost entries: seq<seq<byte>>, ghost kept: nat)
    requires Detects(log.crc, [52], 120)
    requires Recover(log.crc, s) == Ok(Recovery(head, entries, kept)) && |s| == ENTRIES_AT + kept
    requires log.storage == s + EncodeBatch(log.crc, Four())
    modifies log
    ensures log.storage == SetLast(old(log.storage), 120)
    ensures Recover(log.crc, log.storage) == Ok(Recovery(head, entries, kept))
  {
    LastByteCorrupted(log.crc, s, head, entries, kept, Four(), 120);
    log.storage := SetLast(log.storage, 120);
  }

  /** Four frames of 1, 2, 3 and 1 payload bytes take 39 bytes. */
  lemma FourFramed()
    ensures Framed(Four()) == 32 + 1 + 2 + 3 + 1
  {
    var f := Four();
    assert f[1..] == [[50, 50], [51, 51, 51], [52]];
    assert f[1..][1..] == [[51, 51, 51], [52]];
    assert f[1..][1..][1..] == [[52]];
    assert Size([[52]]) == 1 + Size([]) by { assert [[52]][1..] == []; }
  }

  /** A second log opened on the bytes `s`: what recovery finds, or the
      corruption error. */
  method ReadBack(crc: seq<byte> -> nat, s: seq<byte>) returns (r: Result<(Option<seq<byte>>, seq<seq<byte>>)>)
    ensures Recover(crc, s).Err? ==> r == Err(Corruption)
    ensures Recover(crc, s).Ok? ==> r == Ok((HeaderOf(Recover(crc, s).value.head), Recover(crc, s).value.entries))
  {
    var reader := new Log(crc, s);
    r := reader.Open();
  }

  /** `storage.write(off, b)` behind the log's back. */
  method Overwrite(log: Log, off: nat, b: seq<byte>)
    modifies log
    ensures log.storage == WriteAt(old(log.storage), off, b)
    ensures log.head == old(log.head) && log.entries == old(log.entries)
    ensures log.length == old(log.length) && log.byteLength == old(log.byteLength)
  {
    log.storage := WriteAt(log.storage, off, b);
  }

  /** "header 1", "header 2", "header 3": the header text ending in digit `d`. */
  function Numbered(d: byte): seq<byte>
  {
    [104, 101, 97, 100, 101, 114, 32, d]
  }

  const HELLO_WORLD: seq<byte> := [104, 101, 108, 108, 111, 32, 119, 111, 114, 108, 100]

  /** "hello world" over slot 0 puts "o wo" where its length word was: a
      frame far longer than the slot, so slot 0 no longer reads. */
  lemma HelloWorldUnread(crc: seq<byte> -> nat, s: seq<byte>)
    ensures ReadSlot(crc, WriteAt(s, 0, HELLO_WORLD), 0) == None
  {
    var w := WriteAt(s, 0, HELLO_WORLD);
    forall j | 4 <= j < 8 ensures Window(w, 0)[j] == HELLO_WORLD[j] {
      WindowAt(w, 0, j);
      WriteAtAt(s, 0, HELLO_WORLD, j);
    }
    var word := Window(w, 0)[4..8];
    assert word == [111, 32, 119, 111];
    calc {
      FromLittleEndian(word);
      111 + 256 * FromLittleEndian([32, 119, 111]);
      { assert [32, 119, 111][1..] == [119, 111]; }
      111 + 256 * (32 + 256 * FromLittleEndian([119, 111]));
      { assert [119, 111][1..] == [111]; }
      111 + 256 * (32 + 256 * (119 + 256 * FromLittleEndian([111])));
      { assert [111][1..] == []; }
      111 + 256 * (32 + 256 * (119 + 256 * 111));
    }
    LongFrameUnread(crc, w, 0);
  }

  /** oplog.spec.ts:149-198: three headers flushed, then "hello world"
      written over the start of slot 0, which held "header 3": slot 1,
      still holding "header 2", wins. No assumption on the checksum is
      needed, as the broken length word alone rules slot 0 out. */
  method OneCorruptedHeader(crc: seq<byte> -> nat)
    returns (r1: Result<(Option<seq<byte>>, seq<seq<byte>>)>,
             r2: Result<(Option<seq<byte>>, seq<seq<byte>>)>,
             r3: Result<(Option<seq<byte>>, seq<seq<byte>>)>,
             r4: Result<(Option<seq<byte>>, seq<seq<byte>>)>)
    ensures r1 == Ok((Some(Numbered(49)), [])) && r2 == Ok((Some(Numbered(50)), []))
    ensures r3 == Ok((Some(Numbered(51)), []))
    ensures r4 == Ok((Some(Numbered(50)), []))
  {
    var log, slots;
    log, slots, r1, r2 := TwoHeaders(crc, Numbered(49), Numbered(50));
    r3 := FlushKeeping(log, Numbered(51), Slot(1, Numbered(50)));
    r4 := HelloWorldOver(log);
  }

  /** "hello world" written at the start of the file of a log whose current
      header sits in slot 0, then the file read back: slot 1's header. */
  method HelloWorldOver(log: Log) returns (r: Result<(Option<seq<byte>>, seq<seq<byte>>)>)
    requires InStep(log) && log.entries == [] && ENTRIES_AT <= |log.storage|
    requires log.head.Some? && log.head.value.slot == 0 && ReadSlot(log.crc, log.storage, 1).Some?
    modifies log
    ensures log.storage == WriteAt(old(log.storage), 0, HELLO_WORLD)
    ensures r == Ok((Some(old(ReadSlot(log.crc, log.storage, 1)).value.header), []))
  {
    ghost var s := log.storage;
    HelloWorldUnread(log.crc, s);
    OtherSlotWins(log.crc, s, log.head, [], 0, 0, 0, HELLO_WORLD);
    Overwrite(log, 0, HELLO_WORLD);
    r := ReadBack(log.crc, log.storage);
  }

  /** oplog.spec.ts:200-247: headers "a" then "b"; "a" written over the low
      version byte of slot 1 makes slot 0's "a" the header; "b" written
      over the low version byte of slot 0 leaves no slot readable, and
      `open` reports corruption. The checksum is taken to notice a change
      to any one byte. */
  method HeaderInvalidChecksum(crc: seq<byte> -> nat)
    returns (r1: Result<(Option<seq<byte>>, seq<seq<byte>>)>,
             r2: Result<(Option<seq<byte>>, seq<seq<byte>>)>,
             r3: Result<(Option<seq<byte>>, seq<seq<byte>>)>)
    requires ByteDetects(crc)
    ensures r1 == Ok((Some([98]), []))
    ensures r2 == Ok((Some([97]), []))
    ensures r3 == Err(Corruption)
  {
    var log, slots, r0;
    log, slots, r0, r1 := TwoHeaders(crc, [97], [98]);
    ghost var s := log.storage;
    VersionByteFlipped(crc, s, 1, 97);
    OtherSlotWins(crc, s, log.head, [], 0, 1, SLOT_SIZE + 8, [97]);
    Overwrite(log, SLOT_SIZE + 8, [97]);
    r2 := ReadBack(crc, log.storage);
    SecondFlip(crc, s, log.storage);
    Overwrite(log, 8, [98]);
    r3 := ReadBack(crc, log.storage);
  }

  /** The second write of `HeaderInvalidChecksum`: with slot 1 already
      spoilt, spoiling slot 0 leaves a file that does not recover. */
  lemma SecondFlip(crc: seq<byte> -> nat, s: seq<byte>, t: seq<byte>)
    requires ByteDetects(crc) && ReadSlot(crc, s, 0) == Some(Slot(0, [97]))
    requires t == WriteAt(s, SLOT_SIZE + 8, [97]) && ReadSlot(crc, t, 1) == None
    ensures Recover(crc, WriteAt(t, 8, [98])).Err?
  {
    var u := WriteAt(t, 8, [98]);
    SlotKept(crc, s, 0, SLOT_SIZE + 8, [97]);
    VersionByteFlipped(crc, t, 0, 98);
    SlotKept(crc, t, 1, 8, [98]);
    WriteAtAt(t, 8, [98], 8);
    TruncateAt(u, ENTRIES_AT, 8);
    assert HeaderRegion(u)[8] != 0;
    RecoverRefused(crc, u);
  }

  /** oplog.spec.ts:249-300: after header "header" and entries "a" and "b",
      a torn frame is written where the next append would go; a log opened
      on the file finds "a" and "b" only, and its next append "c" reads
      back after them. */
  method MalformedEntry(crc: seq<byte> -> nat)
    returns (offset: nat, r1: Result<(Option<seq<byte>>, seq<seq<byte>>)>,
             r2: Result<(Option<seq<byte>>, seq<seq<byte>>)>)
    ensures offset == 18
    ensures r1 == Ok((Some([104, 101, 97, 100, 101, 114]), [[97], [98]]))
    ensures r2 == Ok((Some([104, 101, 97, 100, 101, 114]), [[97], [98], [99]]))
  {
    var log := StartedWithTwo(crc, [104, 101, 97, 100, 101, 114], [97], [98]);
    offset := log.byteLength;
    r1, r2 := TornThenAppend(crc, log.storage, log.head, log.entries, offset);
    assert [[97], [98]] + [[99]] == [[97], [98], [99]];
  }

  /** `Started`, then two entries appended one by one. */
  method StartedWithTwo(crc: seq<byte> -> nat, header: seq<byte>, a: seq<byte>, b: seq<byte>) returns (log: Log)
    requires 16 + |header| <= SLOT_SIZE && |a| < MAX_PAYLOAD && |b| < MAX_PAYLOAD
    ensures fresh(log) && log.crc == crc && InStep(log) && log.head == Some(Head(0, 0, header))
    ensures log.entries == [a, b] && log.byteLength == 16 + |a| + |b|
    ensures |log.storage| == ENTRIES_AT + log.byteLength
  {
    log := StartedWith(crc, header, a);
    AppendAtEnd(log, [b]);
    FramedSingle(b);
  }

  /** A torn frame written at the end of a file that recovers to `entries`,
      then a new log opened on it, then "c" appended and the file read back. */
  method TornThenAppend(crc: seq<byte> -> nat, s: seq<byte>, ghost head: Option<Head>, ghost entries: seq<seq<byte>>, n: nat)
    returns (r1: Result<(Option<seq<byte>>, seq<seq<byte>>)>, r2: Result<(Option<seq<byte>>, seq<seq<byte>>)>)
    requires Recover(crc, s) == Ok(Recovery(head, entries, n)) && |s| == ENTRIES_AT + n
    ensures r1 == Ok((HeaderOf(head), entries))
    ensures r2 == Ok((HeaderOf(head), entries + [[99]]))
  {
    TornIgnored(crc, s, head, entries, n);
    assert WriteAt(s, ENTRIES_AT + n, TORN) == s + TORN by { assert s[..|s|] == s; }
    var reader := new Log(crc, WriteAt(s, ENTRIES_AT + n, TORN));
    r1 := reader.Open();
    r2 := AppendReopen(reader, [[99]]);
  }
}
