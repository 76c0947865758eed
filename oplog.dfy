/** The write-ahead operation log. The storage file holds two ping-pong
    header slots of 4096 bytes at offsets 0 and 4096, and from offset 8192
    a run of framed entries. A frame is a 4-byte checksum, a 4-byte length
    word (twice the payload length, plus one when more entries of the same
    append follow) and the payload. `open` takes the newest header slot that
    checks out and replays entries up to the first frame that does not,
    keeping the entries of one append only when all of them check out. */
module Oplog {
  import opened Bytes
  import opened Errors

  const SLOT_SIZE: nat := 4096
  const ENTRIES_AT: nat := 8192
  /** Twice a payload length, plus the partial bit, must fit a 32-bit word. */
  const MAX_PAYLOAD: nat := 0x8000_0000

  // ---------------------------------------------------------------------
  // Storage: a byte file written at offsets and cut to a length.

  function Zeros(n: nat): (r: seq<byte>)
    ensures |r| == n
  {
    if n == 0 then [] else [0] + Zeros(n - 1)
  }

  lemma {:induction false} ZerosAt(n: nat, i: nat)
    requires i < n
    ensures Zeros(n)[i] == 0
  {
    if 0 < i {
      ZerosAt(n - 1, i - 1);
    }
  }

  /** The byte at `i`, reading past the end of the file as zero. */
  function At(s: seq<byte>, i: nat): byte
  {
    if i < |s| then s[i] else 0
  }

  /** Writing `b` at `off`: the file grows as needed, a gap reads as zeros. */
  function WriteAt(s: seq<byte>, off: nat, b: seq<byte>): (r: seq<byte>)
    ensures b != [] ==> |r| == if off + |b| < |s| then |s| else off + |b|
  {
    if b == [] then s
    else if off <= |s| then s[..off] + b + (if off + |b| < |s| then s[off + |b|..] else [])
    else s + Zeros(off - |s|) + b
  }

  /** A write changes exactly the bytes it covers. */
  lemma {:induction false} WriteAtAt(s: seq<byte>, off: nat, b: seq<byte>, i: nat)
    ensures At(WriteAt(s, off, b), i) == if off <= i < off + |b| then b[i - off] else At(s, i)
  {
    if b != [] && |s| < off && |s| <= i < off {
      ZerosAt(off - |s|, i - |s|);
    }
  }

  /** Cutting, or zero-extending, the file to `n` bytes. */
  function Truncate(s: seq<byte>, n: nat): (r: seq<byte>)
    ensures |r| == n
  {
    if n <= |s| then s[..n] else s + Zeros(n - |s|)
  }

  lemma {:induction false} TruncateAt(s: seq<byte>, n: nat, i: nat)
    requires i < n
    ensures Truncate(s, n)[i] == At(s, i)
  {
    if |s| <= i && |s| < n {
      ZerosAt(n - |s|, i - |s|);
    }
  }

  /** The two header slots as the file holds them. */
  function HeaderRegion(s: seq<byte>): (r: seq<byte>)
    ensures |r| == ENTRIES_AT
  {
    Truncate(s, ENTRIES_AT)
  }

  predicate Blank(w: seq<byte>)
  {
    forall i :: 0 <= i < |w| ==> w[i] == 0
  }

  // ---------------------------------------------------------------------
  // Frames.

  /** The 32 bits of checksum a frame stores over its body (length word and
      payload); the checksum function itself is a parameter of the model. */
  function Checksum(crc: seq<byte> -> nat, body: seq<byte>): nat
  {
    crc(body) % TWO_32
  }

  /** One frame around `payload`. */
  function Encode(crc: seq<byte> -> nat, payload: seq<byte>, partial: bool): (r: seq<byte>)
    requires |payload| < MAX_PAYLOAD
    ensures |r| == 8 + |payload| && r[8..] == payload
  {
    var length := Uint32(2 * |payload| + (if partial then 1 else 0));
    var body := length + payload;
    var sum := Uint32(Checksum(crc, body));
    AfterWords(sum, length, payload);
    sum + body
  }

  /** Behind two 4-byte words lies the payload. */
  lemma AfterWords(sum: seq<byte>, length: seq<byte>, payload: seq<byte>)
    requires |sum| == 4 && |length| == 4
    ensures |sum + (length + payload)| == 8 + |payload| && (sum + (length + payload))[8..] == payload
    ensures (sum + (length + payload))[..4] == sum && (sum + (length + payload))[4..] == length + payload
    ensures (sum + (length + payload))[4..8] == length
  {
  }

  datatype Record = Record(payload: seq<byte>, partial: bool, next: nat)

  /** The frame at `at`, if the file holds all of it and its checksum agrees. */
  function Decode(crc: seq<byte> -> nat, s: seq<byte>, at: nat): (r: Option<Record>)
    ensures r.Some? ==> r.value.next == at + 8 + |r.value.payload| <= |s|
  {
    if |s| < at + 8 then None
    else
      var word := ReadUint32(s, at + 4);
      if |s| < at + 8 + word / 2 then None
      else if ReadUint32(s, at) != Checksum(crc, s[at + 4..at + 8 + word / 2]) then None
      else Some(Record(s[at + 8..at + 8 + word / 2], word % 2 == 1, at + 8 + word / 2))
  }

  /** A frame reads back as written, whatever surrounds it. */
  lemma {:induction false} DecodeEncoded(crc: seq<byte> -> nat, prefix: seq<byte>, payload: seq<byte>, partial: bool, rest: seq<byte>)
    requires |payload| < MAX_PAYLOAD
    ensures Decode(crc, prefix + Encode(crc, payload, partial) + rest, |prefix|)
         == Some(Record(payload, partial, |prefix| + 8 + |payload|))
  {
    var s := prefix + Encode(crc, payload, partial) + rest;
    assert s[|prefix|..|prefix| + 8 + |payload|] == Encode(crc, payload, partial);
    DecodeFrame(crc, s, |prefix|, payload, partial);
  }

  lemma {:induction false} DecodeFrame(crc: seq<byte> -> nat, s: seq<byte>, at: nat, payload: seq<byte>, partial: bool)
    requires |payload| < MAX_PAYLOAD && at + 8 + |payload| <= |s|
    requires s[at..at + 8 + |payload|] == Encode(crc, payload, partial)
    ensures Decode(crc, s, at) == Some(Record(payload, partial, at + 8 + |payload|))
  {
    FrameFields(crc, s, at, payload, partial);
    LengthWord(|payload|, partial);
  }

  /** The checksum, length word and payload of a frame as the file holds it. */
  lemma {:induction false} FrameFields(crc: seq<byte> -> nat, s: seq<byte>, at: nat, payload: seq<byte>, partial: bool)
    requires |payload| < MAX_PAYLOAD && at + 8 + |payload| <= |s|
    requires s[at..at + 8 + |payload|] == Encode(crc, payload, partial)
    ensures ReadUint32(s, at + 4) == 2 * |payload| + (if partial then 1 else 0)
    ensures ReadUint32(s, at) == Checksum(crc, s[at + 4..at + 8 + |payload|])
    ensures s[at + 8..at + 8 + |payload|] == payload
  {
    var f := Encode(crc, payload, partial);
    var n := at + 8 + |payload|;
    EncodeFields(crc, payload, partial);
    Slice(s, at, n, 0, 4);
    Slice(s, at, n, 4, 8);
    Slice(s, at, n, 4, n - at);
    Slice(s, at, n, 8, n - at);
  }

  lemma {:induction false} Slice<T>(s: seq<T>, a: nat, b: nat, c: nat, d: nat)
    requires a + d <= b <= |s| && c <= d
    ensures s[a..b][c..d] == s[a + c..a + d]
  {
    var x, y := s[a..b][c..d], s[a + c..a + d];
    forall i | 0 <= i < |x| ensures x[i] == y[i] {
      assert x[i] == s[a..b][c + i] == s[a + c + i];
    }
  }

  lemma {:induction false} SameSlice<T>(s: seq<T>, t: seq<T>, a: nat, b: nat, c: nat, d: nat)
    requires a <= c <= d <= b <= |s| && b <= |t| && s[a..b] == t[a..b]
    ensures s[c..d] == t[c..d]
  {
    Slice(s, a, b, c - a, d - a);
    Slice(t, a, b, c - a, d - a);
  }

  /** The fields of a frame: checksum of the body, length word, payload. */
  lemma {:induction false} EncodeFields(crc: seq<byte> -> nat, payload: seq<byte>, partial: bool)
    requires |payload| < MAX_PAYLOAD
    ensures FromLittleEndian(Encode(crc, payload, partial)[..4]) == Checksum(crc, Encode(crc, payload, partial)[4..])
    ensures FromLittleEndian(Encode(crc, payload, partial)[4..8]) == 2 * |payload| + (if partial then 1 else 0)
  {
    var word := 2 * |payload| + (if partial then 1 else 0);
    var body := Uint32(word) + payload;
    var sum := Uint32(Checksum(crc, body));
    assert Encode(crc, payload, partial) == sum + body;
    AfterWords(sum, Uint32(word), payload);
  }

  lemma {:induction false} LengthWord(n: nat, partial: bool)
    ensures (2 * n + (if partial then 1 else 0)) / 2 == n
    ensures (2 * n + (if partial then 1 else 0)) % 2 == 1 <==> partial
  {
  }

  /** A frame whose body changes in its payload, where the checksum tells
      the two bodies apart, no longer reads. */
  lemma {:induction false} DecodeDetects(crc: seq<byte> -> nat, s: seq<byte>, at: nat, i: nat, x: byte)
    requires Decode(crc, s, at).Some?
    requires at + 8 <= i < Decode(crc, s, at).value.next
    requires Checksum(crc, s[i := x][at + 4..Decode(crc, s, at).value.next])
          != Checksum(crc, s[at + 4..Decode(crc, s, at).value.next])
    ensures Decode(crc, s[i := x], at) == None
  {
    var t := s[i := x];
    assert t[at..at + 4] == s[at..at + 4];
    assert t[at + 4..at + 8] == s[at + 4..at + 8];
  }

  /** Reading a frame looks only at its own bytes. */
  lemma {:induction false} DecodeStable(crc: seq<byte> -> nat, s: seq<byte>, t: seq<byte>, at: nat)
    requires Decode(crc, s, at).Some?
    requires Decode(crc, s, at).value.next <= |t|
    requires t[at..Decode(crc, s, at).value.next] == s[at..Decode(crc, s, at).value.next]
    ensures Decode(crc, t, at) == Decode(crc, s, at)
  {
    var n := Decode(crc, s, at).value.next;
    assert at + 8 <= n;
    SameSlice(t, s, at, n, at, at + 4);
    SameSlice(t, s, at, n, at + 4, at + 8);
    SameSlice(t, s, at, n, at + 4, n);
    SameSlice(t, s, at, n, at + 8, n);
  }

  // ---------------------------------------------------------------------
  // Appends: batches of frames.

  ghost predicate Fits(entries: seq<seq<byte>>)
  {
    forall i :: 0 <= i < |entries| ==> |entries[i]| < MAX_PAYLOAD
  }

  /** The payload bytes of `entries`. */
  function Size(entries: seq<seq<byte>>): nat
  {
    if entries == [] then 0 else |entries[0]| + Size(entries[1..])
  }

  /** The bytes `entries` take in the log: eight framing bytes each, plus payload. */
  function Framed(entries: seq<seq<byte>>): nat
  {
    8 * |entries| + Size(entries)
  }

  lemma {:induction false} SizeConcat(a: seq<seq<byte>>, b: seq<seq<byte>>)
    ensures Size(a + b) == Size(a) + Size(b)
    decreases |a|
  {
    if a != [] {
      SizeConcat(a[1..], b);
      assert (a + b)[1..] == a[1..] + b;
    } else {
      assert a + b == b;
    }
  }

  lemma {:induction false} FramedConcat(a: seq<seq<byte>>, b: seq<seq<byte>>)
    ensures Framed(a + b) == Framed(a) + Framed(b)
  {
    SizeConcat(a, b);
  }

  lemma {:induction false} FramedSingle(p: seq<byte>)
    ensures Framed([p]) == 8 + |p|
  {
    assert [p][1..] == [];
    assert Size([p]) == |p| + Size([]);
  }

  /** Frames flagged partial: entries of an append that more entries follow. */
  function Partials(crc: seq<byte> -> nat, entries: seq<seq<byte>>): (r: seq<byte>)
    requires Fits(entries)
    ensures |r| == Framed(entries)
  {
    if entries == [] then [] else Encode(crc, entries[0], true) + Partials(crc, entries[1..])
  }

  /** The bytes one `append` writes: every entry but the last flagged
      partial, so that a reader keeps the entries only together. */
  function EncodeBatch(crc: seq<byte> -> nat, batch: seq<seq<byte>>): (r: seq<byte>)
    requires Fits(batch)
    ensures |r| == Framed(batch)
  {
    if batch == [] then []
    else
      var init, last := batch[..|batch| - 1], batch[|batch| - 1];
      assert batch == init + [last];
      FramedConcat(init, [last]);
      FramedSingle(last);
      Partials(crc, init) + Encode(crc, last, false)
  }

  /** The entries of one append starting at `at`: frames up to and including
      the first one not flagged partial, or nothing if any of them fails to
      read. */
  function ReadBatch(crc: seq<byte> -> nat, s: seq<byte>, at: nat): (r: Option<(seq<seq<byte>>, nat)>)
    ensures r.Some? ==> r.value.0 != [] && r.value.1 == at + Framed(r.value.0) <= |s|
    decreases |s| - at
  {
    match Decode(crc, s, at)
    case None => None
    case Some(rec) =>
      if !rec.partial then
        FramedSingle(rec.payload);
        Some(([rec.payload], rec.next))
      else
        match ReadBatch(crc, s, rec.next)
        case None => None
        case Some(more) =>
          FramedConcat([rec.payload], more.0);
          FramedSingle(rec.payload);
          Some(([rec.payload] + more.0, more.1))
  }

  function Prepend(entries: seq<seq<byte>>, r: Option<(seq<seq<byte>>, nat)>): Option<(seq<seq<byte>>, nat)>
  {
    match r
    case None => None
    case Some(more) => Some((entries + more.0, more.1))
  }

  lemma PrependNone(r: Option<(seq<seq<byte>>, nat)>)
    ensures Prepend([], r) == r
  {
    if r.Some? {
      Cat([], r.value.0);
    }
  }

  lemma PrependTwice(xs: seq<seq<byte>>, r: Option<(seq<seq<byte>>, nat)>)
    requires xs != []
    ensures Prepend([xs[0]], Prepend(xs[1..], r)) == Prepend(xs, r)
  {
    if r.Some? {
      Cons(xs, r.value.0);
    }
  }

  lemma Cat<T>(a: seq<T>, b: seq<T>)
    requires a == []
    ensures a + b == b
  {
  }

  lemma Cons<T>(a: seq<T>, b: seq<T>)
    requires a != []
    ensures [a[0]] + (a[1..] + b) == a + b
  {
    assert a == [a[0]] + a[1..];
  }

  /** A partial frame joins the append that completes after it. */
  lemma {:induction false} ReadBatchPartial(crc: seq<byte> -> nat, s: seq<byte>, at: nat, x: seq<byte>, n: nat)
    requires Decode(crc, s, at) == Some(Record(x, true, n))
    ensures ReadBatch(crc, s, at) == Prepend([x], ReadBatch(crc, s, n))
  {
  }

  lemma {:induction false} PartialsHead(crc: seq<byte> -> nat, s: seq<byte>, at: nat, xs: seq<seq<byte>>, n: nat, end: nat)
    requires Fits(xs) && xs != [] && end == at + Framed(xs) <= |s|
    requires s[at..end] == Partials(crc, xs) && n == at + 8 + |xs[0]|
    ensures Fits(xs[1..]) && end == n + Framed(xs[1..]) && n <= end
    ensures Decode(crc, s, at) == Some(Record(xs[0], true, n))
    ensures s[n..end] == Partials(crc, xs[1..])
  {
    var f, rest := Encode(crc, xs[0], true), Partials(crc, xs[1..]);
    assert Partials(crc, xs) == f + rest;
    SplitSlice(s, at, n, end, f, rest);
    DecodeFrame(crc, s, at, xs[0], true);
  }

  /** A slice that holds `p + q` holds `p`, then `q`. */
  lemma {:induction false} SplitSlice<T>(s: seq<T>, a: nat, m: nat, b: nat, p: seq<T>, q: seq<T>)
    requires a <= b <= |s| && s[a..b] == p + q && m == a + |p|
    ensures s[a..m] == p && s[m..b] == q
  {
    Slice(s, a, b, 0, |p|);
    Slice(s, a, b, |p|, b - a);
  }

  /** Frames flagged partial carrying `xs`, one after another from `at` to `end`. */
  ghost predicate PartialChain(crc: seq<byte> -> nat, s: seq<byte>, at: nat, xs: seq<seq<byte>>, end: nat)
    decreases |xs|
  {
    if xs == [] then end == at
    else
      && Decode(crc, s, at) == Some(Record(xs[0], true, at + 8 + |xs[0]|))
      && PartialChain(crc, s, at + 8 + |xs[0]|, xs[1..], end)
  }

  /** Partial frames written one after another read back one by one. */
  lemma {:induction false} PartialsChain(crc: seq<byte> -> nat, s: seq<byte>, at: nat, xs: seq<seq<byte>>, end: nat)
    requires Fits(xs) && end == at + Framed(xs) <= |s|
    requires s[at..end] == Partials(crc, xs)
    ensures PartialChain(crc, s, at, xs, end)
    decreases |xs|
  {
    if xs != [] {
      var n := at + 8 + |xs[0]|;
      PartialsHead(crc, s, at, xs, n, end);
      PartialsChain(crc, s, n, xs[1..], end);
      ChainCons(crc, s, at, xs, n, end);
    }
  }

  lemma {:induction false} ChainCons(crc: seq<byte> -> nat, s: seq<byte>, at: nat, xs: seq<seq<byte>>, n: nat, end: nat)
    requires xs != [] && n == at + 8 + |xs[0]|
    requires Decode(crc, s, at) == Some(Record(xs[0], true, n)) && PartialChain(crc, s, n, xs[1..], end)
    ensures PartialChain(crc, s, at, xs, end)
  {
  }

  /** Partial frames belong to whatever append completes after them. */
  lemma {:induction false} ReadPartials(crc: seq<byte> -> nat, s: seq<byte>, at: nat, xs: seq<seq<byte>>, end: nat)
    requires PartialChain(crc, s, at, xs, end)
    ensures ReadBatch(crc, s, at) == Prepend(xs, ReadBatch(crc, s, end))
    decreases |xs|
  {
    if xs == [] {
      PrependNone(ReadBatch(crc, s, at));
    } else {
      var n := at + 8 + |xs[0]|;
      ReadPartials(crc, s, n, xs[1..], end);
      ReadBatchPartial(crc, s, at, xs[0], n);
      PrependTwice(xs, ReadBatch(crc, s, end));
    }
  }

  /** The frames of one append read back as exactly its entries. */
  lemma {:induction false} ReadBatchAt(crc: seq<byte> -> nat, s: seq<byte>, at: nat, batch: seq<seq<byte>>, end: nat)
    requires Fits(batch) && batch != [] && end == at + Framed(batch) <= |s|
    requires s[at..end] == EncodeBatch(crc, batch)
    ensures ReadBatch(crc, s, at) == Some((batch, end))
  {
    var init, last := batch[..|batch| - 1], batch[|batch| - 1];
    BatchParts(crc, batch, init, last);
    var p, q := Partials(crc, init), Encode(crc, last, false);
    var mid := at + |p|;
    SplitSlice(s, at, mid, end, p, q);
    PartialsChain(crc, s, at, init, mid);
    ReadPartials(crc, s, at, init, mid);
    ReadLast(crc, s, mid, last, end);
  }

  /** An append's frames: its leading entries flagged partial, then its last. */
  lemma {:induction false} BatchParts(crc: seq<byte> -> nat, batch: seq<seq<byte>>, init: seq<seq<byte>>, last: seq<byte>)
    requires Fits(batch) && batch != [] && init == batch[..|batch| - 1] && last == batch[|batch| - 1]
    ensures batch == init + [last] && Fits(init) && |last| < MAX_PAYLOAD
    ensures EncodeBatch(crc, batch) == Partials(crc, init) + Encode(crc, last, false)
    ensures |Partials(crc, init)| == Framed(init) && Framed(batch) == Framed(init) + 8 + |last|
  {
    assert init + [last] == batch;
    FramedConcat(init, [last]);
    FramedSingle(last);
  }

  lemma {:induction false} ReadLast(crc: seq<byte> -> nat, s: seq<byte>, at: nat, x: seq<byte>, end: nat)
    requires |x| < MAX_PAYLOAD && end == at + 8 + |x| <= |s|
    requires s[at..end] == Encode(crc, x, false)
    ensures ReadBatch(crc, s, at) == Some(([x], end))
  {
    DecodeFrame(crc, s, at, x, false);
  }

  /** Reading an append looks only at its own frames. */
  lemma {:induction false} ReadBatchStable(crc: seq<byte> -> nat, s: seq<byte>, t: seq<byte>, at: nat)
    requires ReadBatch(crc, s, at).Some?
    requires ReadBatch(crc, s, at).value.1 <= |t|
    requires t[at..ReadBatch(crc, s, at).value.1] == s[at..ReadBatch(crc, s, at).value.1]
    ensures ReadBatch(crc, t, at) == ReadBatch(crc, s, at)
    decreases |s| - at
  {
    var n := ReadBatch(crc, s, at).value.1;
    var rec := Decode(crc, s, at).value;
    SameSlice(t, s, at, n, at, rec.next);
    DecodeStable(crc, s, t, at);
    if rec.partial {
      SameSlice(t, s, at, n, rec.next, n);
      ReadBatchStable(crc, s, t, rec.next);
    }
  }

  // ---------------------------------------------------------------------
  // Replay.

  /** Appends read one after another from `at` until one fails to read:
      the entries kept and the offset where the kept frames end. */
  function Replay(crc: seq<byte> -> nat, s: seq<byte>, at: nat, done: seq<seq<byte>>): (r: (seq<seq<byte>>, nat))
    ensures at <= r.1 && (at < r.1 ==> r.1 <= |s|)
    ensures |done| <= |r.0| && r.0[..|done|] == done
    ensures Framed(r.0) == Framed(done) + (r.1 - at)
    decreases |s| - at
  {
    match ReadBatch(crc, s, at)
    case None => (done, at)
    case Some(batch) =>
      var r := Replay(crc, s, batch.1, done + batch.0);
      FramedConcat(done, batch.0);
      assert r.0[..|done|] == r.0[..|done + batch.0|][..|done|];
      r
  }

  /** The scan `open` runs, frame by frame, holding back partial frames
      until the frame that completes their append. */
  function Scan(crc: seq<byte> -> nat, s: seq<byte>, at: nat, pending: seq<seq<byte>>, done: seq<seq<byte>>, end: nat): (seq<seq<byte>>, nat)
    decreases |s| - at
  {
    match Decode(crc, s, at)
    case None => (done, end)
    case Some(rec) =>
      if rec.partial then Scan(crc, s, rec.next, pending + [rec.payload], done, end)
      else Scan(crc, s, rec.next, [], done + pending + [rec.payload], rec.next)
  }

  /** Frames held back as pending join the append that completes after them. */
  lemma {:induction false} ScanBatch(crc: seq<byte> -> nat, s: seq<byte>, at: nat, pending: seq<seq<byte>>, done: seq<seq<byte>>, end: nat, batch: seq<seq<byte>>, next: nat)
    requires ReadBatch(crc, s, at) == Some((batch, next))
    ensures Scan(crc, s, at, pending, done, end) == Scan(crc, s, next, [], done + pending + batch, next)
    decreases |s| - at
  {
    var rec := Decode(crc, s, at).value;
    if rec.partial {
      var more := ReadBatch(crc, s, rec.next).value;
      assert batch == [rec.payload] + more.0;
      ScanBatch(crc, s, rec.next, pending + [rec.payload], done, end, more.0, next);
      assert done + (pending + [rec.payload]) + more.0 == done + pending + batch;
    }
  }

  /** Where no append reads in full, the scan keeps nothing more. */
  lemma {:induction false} ScanStops(crc: seq<byte> -> nat, s: seq<byte>, at: nat, pending: seq<seq<byte>>, done: seq<seq<byte>>, end: nat)
    requires ReadBatch(crc, s, at).None?
    ensures Scan(crc, s, at, pending, done, end) == (done, end)
    decreases |s| - at
  {
    match Decode(crc, s, at)
    case None =>
    case Some(rec) =>
      if rec.partial {
        ScanStops(crc, s, rec.next, pending + [rec.payload], done, end);
      }
  }

  /** The frame-by-frame scan keeps exactly the appends that read in full. */
  lemma {:induction false} ScanReplay(crc: seq<byte> -> nat, s: seq<byte>, at: nat, done: seq<seq<byte>>)
    ensures Scan(crc, s, at, [], done, at) == Replay(crc, s, at, done)
    decreases |s| - at
  {
    match ReadBatch(crc, s, at)
    case None =>
      ScanStops(crc, s, at, [], done, at);
    case Some(b) =>
      ScanBatch(crc, s, at, [], done, at, b.0, b.1);
      assert done + [] + b.0 == done + b.0;
      ScanReplay(crc, s, b.1, done + b.0);
  }

  /** Replay up to the end of the kept frames looks only at those frames. */
  lemma {:induction false} ReplayStable(crc: seq<byte> -> nat, s: seq<byte>, t: seq<byte>, at: nat, done: seq<seq<byte>>)
    requires Replay(crc, s, at, done).1 <= |t|
    requires at < Replay(crc, s, at, done).1 ==>
      t[at..Replay(crc, s, at, done).1] == s[at..Replay(crc, s, at, done).1]
    ensures Replay(crc, t, at, done) == Replay(crc, t, Replay(crc, s, at, done).1, Replay(crc, s, at, done).0)
    decreases |s| - at
  {
    var r := Replay(crc, s, at, done);
    match ReadBatch(crc, s, at)
    case None =>
    case Some(b) =>
      if at < b.1 {
        SameSlice(t, s, at, r.1, at, b.1);
      }
      ReadBatchStable(crc, s, t, at);
      if b.1 < r.1 {
        SameSlice(t, s, at, r.1, b.1, r.1);
      }
      ReplayStable(crc, s, t, b.1, done + b.0);
  }

  // ---------------------------------------------------------------------
  // Header slots.

  datatype Slot = Slot(version: nat, header: seq<byte>)

  /** The header `open` settles on: which slot, its version, its header. */
  datatype Head = Head(slot: nat, version: nat, header: seq<byte>)

  /** Slot `k`'s bytes as the file holds them, zeros past the end of the file. */
  function Window(s: seq<byte>, k: nat): (r: seq<byte>)
    requires k < 2
    ensures |r| == SLOT_SIZE
  {
    seq<byte>(SLOT_SIZE, i requires 0 <= i < SLOT_SIZE => At(s, k * SLOT_SIZE + i))
  }

  lemma {:induction false} WindowAt(s: seq<byte>, k: nat, i: nat)
    requires k < 2 && i < SLOT_SIZE
    ensures Window(s, k)[i] == At(s, k * SLOT_SIZE + i)
  {
  }

  /** Slot `k`, if its frame checks out: an 8-byte version, then the header. */
  function ReadSlot(crc: seq<byte> -> nat, s: seq<byte>, k: nat): Option<Slot>
    requires k < 2
  {
    match Decode(crc, Window(s, k), 0)
    case None => None
    case Some(rec) =>
      if |rec.payload| < 8 then None
      else Some(Slot(FromLittleEndian(rec.payload[..8]), rec.payload[8..]))
  }

  /** The frame `flush` writes into a slot. */
  function SlotBytes(crc: seq<byte> -> nat, version: nat, header: seq<byte>): (r: seq<byte>)
    requires version < TWO_64 && 16 + |header| <= SLOT_SIZE
    ensures |r| <= SLOT_SIZE
  {
    Encode(crc, Uint64(version) + header, false)
  }

  /** Of the two slots, the one that checks out with the higher version
      (slot 0 on a tie). */
  function Newest(a: Option<Slot>, b: Option<Slot>): (r: Option<Head>)
    ensures r.None? <==> a.None? && b.None?
    ensures r.Some? ==> r.value.slot < 2
    ensures r.Some? && r.value.slot == 0 ==>
      a == Some(Slot(r.value.version, r.value.header)) && (b.Some? ==> b.value.version <= r.value.version)
    ensures r.Some? && r.value.slot == 1 ==>
      b == Some(Slot(r.value.version, r.value.header)) && (a.Some? ==> a.value.version < r.value.version)
  {
    match (a, b)
    case (None, None) => None
    case (Some(x), None) => Some(Head(0, x.version, x.header))
    case (None, Some(y)) => Some(Head(1, y.version, y.header))
    case (Some(x), Some(y)) =>
      if y.version > x.version then Some(Head(1, y.version, y.header)) else Some(Head(0, x.version, x.header))
  }

  /** The newest slot of the file. */
  function Current(crc: seq<byte> -> nat, s: seq<byte>): Option<Head>
  {
    Newest(ReadSlot(crc, s, 0), ReadSlot(crc, s, 1))
  }

  /** The slot the next `flush` writes: the one not holding the current header. */
  function NextSlot(head: Option<Head>): (k: nat)
    ensures k < 2 && (head.Some? && head.value.slot < 2 ==> k == 1 - head.value.slot)
  {
    if head.Some? && head.value.slot == 0 then 1 else 0
  }

  function NextVersion(head: Option<Head>): nat
  {
    if head.None? then 0 else head.value.version + 1
  }

  function HeaderOf(head: Option<Head>): Option<seq<byte>>
  {
    if head.None? then None else Some(head.value.header)
  }

  /** A slot written by `flush` reads back as the version and header written. */
  lemma {:induction false} SlotWritten(crc: seq<byte> -> nat, s: seq<byte>, k: nat, version: nat, header: seq<byte>)
    requires k < 2 && version < TWO_64 && 16 + |header| <= SLOT_SIZE
    ensures ReadSlot(crc, WriteAt(s, k * SLOT_SIZE, SlotBytes(crc, version, header)), k) == Some(Slot(version, header))
  {
    var f := SlotBytes(crc, version, header);
    var payload := Uint64(version) + header;
    var w := Window(WriteAt(s, k * SLOT_SIZE, f), k);
    forall i | 0 <= i < |f| ensures w[i] == f[i] {
      WindowAt(WriteAt(s, k * SLOT_SIZE, f), k, i);
      WriteAtAt(s, k * SLOT_SIZE, f, k * SLOT_SIZE + i);
    }
    assert w[0..|f|] == f;
    DecodeFrame(crc, w, 0, payload, false);
    assert payload[..8] == Uint64(version);
    assert payload[8..] == header;
  }

  /** Writing into one slot leaves the other slot as it was. */
  lemma {:induction false} SlotKept(crc: seq<byte> -> nat, s: seq<byte>, k: nat, off: nat, b: seq<byte>)
    requires k < 2 && (off + |b| <= k * SLOT_SIZE || (k + 1) * SLOT_SIZE <= off)
    ensures ReadSlot(crc, WriteAt(s, off, b), k) == ReadSlot(crc, s, k)
  {
    var w, v := Window(WriteAt(s, off, b), k), Window(s, k);
    forall i | 0 <= i < SLOT_SIZE ensures w[i] == v[i] {
      WindowAt(WriteAt(s, off, b), k, i);
      WindowAt(s, k, i);
      WriteAtAt(s, off, b, k * SLOT_SIZE + i);
    }
    assert w == v;
  }

  /** Cutting the file at or past the entries leaves both slots as they were. */
  lemma {:induction false} HeaderRegionSame(s: seq<byte>, t: seq<byte>)
    requires forall i :: 0 <= i < ENTRIES_AT ==> At(t, i) == At(s, i)
    ensures HeaderRegion(t) == HeaderRegion(s)
  {
    forall i | 0 <= i < ENTRIES_AT ensures HeaderRegion(t)[i] == HeaderRegion(s)[i] {
      TruncateAt(s, ENTRIES_AT, i);
      TruncateAt(t, ENTRIES_AT, i);
    }
  }

  lemma {:induction false} HeaderRegionWrite(s: seq<byte>, off: nat, b: seq<byte>)
    requires ENTRIES_AT <= off
    ensures HeaderRegion(WriteAt(s, off, b)) == HeaderRegion(s)
  {
    forall i | 0 <= i < ENTRIES_AT ensures At(WriteAt(s, off, b), i) == At(s, i) {
      WriteAtAt(s, off, b, i);
    }
    HeaderRegionSame(s, WriteAt(s, off, b));
  }

  lemma {:induction false} HeaderRegionPrefix(s: seq<byte>, t: seq<byte>)
    requires ENTRIES_AT <= |s| <= |t| && t[..|s|] == s
    ensures HeaderRegion(t) == HeaderRegion(s)
  {
    forall i | 0 <= i < ENTRIES_AT ensures At(t, i) == At(s, i) {
      assert t[..|s|][i] == t[i];
    }
    HeaderRegionSame(s, t);
  }

  // ---------------------------------------------------------------------
  // Recovery.

  datatype Recovery = Recovery(head: Option<Head>, entries: seq<seq<byte>>, byteLength: nat)

  /** What `open` recovers from the file: the newest slot that checks out, and
      the appends after the header region that read in full. No slot checking
      out is corruption unless the header region was never written. */
  function Recover(crc: seq<byte> -> nat, s: seq<byte>): (r: Result<Recovery>)
    ensures r.Err? ==> r.error == Corruption
    ensures r.Ok? ==> r.value.head == Current(crc, s) && r.value.byteLength == Framed(r.value.entries)
  {
    var head := Current(crc, s);
    if head.None? && !Blank(HeaderRegion(s)) then Err(Corruption)
    else
      var replayed := Replay(crc, s, ENTRIES_AT, []);
      Ok(Recovery(head, replayed.0, replayed.1 - ENTRIES_AT))
  }

  /** `open` refuses a file exactly when neither slot checks out and the
      header region is not all zero. */
  lemma RecoverRefused(crc: seq<byte> -> nat, s: seq<byte>)
    ensures Recover(crc, s).Err? <==> ReadSlot(crc, s, 0).None? && ReadSlot(crc, s, 1).None? && !Blank(HeaderRegion(s))
  {
  }

  /** The entry part of a recovery is the replay from the entry region. */
  lemma {:induction false} Recovered(crc: seq<byte> -> nat, s: seq<byte>, head: Option<Head>, entries: seq<seq<byte>>, byteLength: nat)
    requires Recover(crc, s) == Ok(Recovery(head, entries, byteLength))
    ensures Replay(crc, s, ENTRIES_AT, []) == (entries, ENTRIES_AT + byteLength)
  {
  }

  /** A file never written opens with no header and no entries. */
  lemma {:induction false} RecoverEmpty(crc: seq<byte> -> nat)
    ensures Recover(crc, []) == Ok(Recovery(None, [], 0))
  {
    var h := HeaderRegion([]);
    forall i | 0 <= i < |h| ensures h[i] == 0 {
      TruncateAt([], ENTRIES_AT, i);
    }
    forall k, i | 0 <= k < 2 && 0 <= i < SLOT_SIZE ensures Window([], k)[i] == 0 {
      WindowAt([], k, i);
    }
    BlankUnread(crc, Window([], 0));
    BlankUnread(crc, Window([], 1));
  }

  /** An all-zero slot holds no header: its length word says the payload is
      empty, too short for a version. */
  lemma {:induction false} BlankUnread(crc: seq<byte> -> nat, w: seq<byte>)
    requires Blank(w)
    ensures Decode(crc, w, 0).None? || Decode(crc, w, 0).value.payload == []
  {
    if 8 <= |w| {
      BlankNumber(w[4..8]);
    }
  }

  lemma {:induction false} BlankNumber(s: seq<byte>)
    requires Blank(s)
    ensures FromLittleEndian(s) == 0
  {
    if s != [] {
      BlankNumber(s[1..]);
    }
  }

  /** `open`'s result from the slots it finds and the replay of the entries. */
  lemma {:induction false} RecoverFrom(crc: seq<byte> -> nat, t: seq<byte>, head: Option<Head>, entries: seq<seq<byte>>, byteLength: nat)
    requires Current(crc, t) == head && (head.Some? || Blank(HeaderRegion(t)))
    requires Replay(crc, t, ENTRIES_AT, []) == (entries, ENTRIES_AT + byteLength)
    ensures Recover(crc, t) == Ok(Recovery(head, entries, byteLength))
  {
  }

  /** A file whose header region is unchanged keeps its header. */
  lemma {:induction false} RecoverSameHeader(crc: seq<byte> -> nat, s: seq<byte>, t: seq<byte>, head: Option<Head>, entries: seq<seq<byte>>, byteLength: nat)
    requires Recover(crc, s).Ok? && Recover(crc, s).value.head == head
    requires HeaderRegion(t) == HeaderRegion(s)
    requires Replay(crc, t, ENTRIES_AT, []) == (entries, ENTRIES_AT + byteLength)
    ensures Recover(crc, t) == Ok(Recovery(head, entries, byteLength))
  {
    SlotsOfRegion(crc, s, t);
    RecoverFrom(crc, t, head, entries, byteLength);
  }

  lemma {:induction false} SlotsOfRegion(crc: seq<byte> -> nat, s: seq<byte>, t: seq<byte>)
    requires HeaderRegion(t) == HeaderRegion(s)
    ensures ReadSlot(crc, t, 0) == ReadSlot(crc, s, 0) && ReadSlot(crc, t, 1) == ReadSlot(crc, s, 1)
  {
    WindowOfRegion(s, t, 0);
    WindowOfRegion(s, t, 1);
  }

  /** Each slot lies inside the header region. */
  lemma {:induction false} WindowOfRegion(s: seq<byte>, t: seq<byte>, k: nat)
    requires k < 2 && HeaderRegion(t) == HeaderRegion(s)
    ensures Window(t, k) == Window(s, k)
  {
    forall i | 0 <= i < SLOT_SIZE ensures Window(t, k)[i] == Window(s, k)[i] {
      WindowAt(t, k, i);
      WindowAt(s, k, i);
      TruncateAt(t, ENTRIES_AT, k * SLOT_SIZE + i);
      TruncateAt(s, ENTRIES_AT, k * SLOT_SIZE + i);
    }
  }

  lemma {:induction false} ReplayEnd(crc: seq<byte> -> nat, s: seq<byte>, at: nat, done: seq<seq<byte>>)
    requires ReadBatch(crc, s, at).None?
    ensures Replay(crc, s, at, done) == (done, at)
  {
  }

  lemma {:induction false} ReplayNext(crc: seq<byte> -> nat, s: seq<byte>, at: nat, done: seq<seq<byte>>, batch: seq<seq<byte>>, end: nat)
    requires ReadBatch(crc, s, at) == Some((batch, end))
    ensures Replay(crc, s, at, done) == Replay(crc, s, end, done + batch)
  {
  }

  /** Reading a frame looks only at the bytes from its offset on. */
  lemma {:induction false} DecodeSuffix(crc: seq<byte> -> nat, s: seq<byte>, t: seq<byte>, a: nat, at: nat)
    requires a <= at && |s| == |t| && forall i :: a <= i < |s| ==> s[i] == t[i]
    ensures Decode(crc, t, at) == Decode(crc, s, at)
  {
    if at + 8 <= |s| {
      assert t[at + 4..at + 8] == s[at + 4..at + 8];
      var n := at + 8 + ReadUint32(s, at + 4) / 2;
      if n <= |s| {
        assert t[at..at + 4] == s[at..at + 4];
        assert t[at + 4..n] == s[at + 4..n];
        assert t[at + 8..n] == s[at + 8..n];
      }
    }
  }

  lemma {:induction false} ReadBatchSuffix(crc: seq<byte> -> nat, s: seq<byte>, t: seq<byte>, a: nat, at: nat)
    requires a <= at && |s| == |t| && forall i :: a <= i < |s| ==> s[i] == t[i]
    ensures ReadBatch(crc, t, at) == ReadBatch(crc, s, at)
    decreases |s| - at
  {
    DecodeSuffix(crc, s, t, a, at);
    match Decode(crc, s, at)
    case None =>
    case Some(rec) =>
      if rec.partial {
        ReadBatchSuffix(crc, s, t, a, rec.next);
      }
  }

  /** Replay looks only at the bytes from where it starts on. */
  lemma {:induction false} ReplaySuffix(crc: seq<byte> -> nat, s: seq<byte>, t: seq<byte>, a: nat, at: nat, done: seq<seq<byte>>)
    requires a <= at && |s| == |t| && forall i :: a <= i < |s| ==> s[i] == t[i]
    ensures Replay(crc, t, at, done) == Replay(crc, s, at, done)
    decreases |s| - at
  {
    ReadBatchSuffix(crc, s, t, a, at);
    match ReadBatch(crc, s, at)
    case None =>
    case Some(b) =>
      ReplaySuffix(crc, s, t, a, b.1, done + b.0);
  }

  /** Bytes past the end of the kept frames that do not read as an append
      change nothing `open` recovers. */
  lemma {:induction false} RecoverTail(crc: seq<byte> -> nat, s: seq<byte>, t: seq<byte>, head: Option<Head>, entries: seq<seq<byte>>, byteLength: nat)
    requires Recover(crc, s) == Ok(Recovery(head, entries, byteLength)) && |s| == ENTRIES_AT + byteLength
    requires |s| <= |t| && t[..|s|] == s && ReadBatch(crc, t, |s|).None?
    ensures Recover(crc, t) == Recover(crc, s)
  {
    Recovered(crc, s, head, entries, byteLength);
    ReplayTail(crc, s, t, entries);
    HeaderRegionPrefix(s, t);
    RecoverSameHeader(crc, s, t, head, entries, byteLength);
  }

  lemma {:induction false} ReplayTail(crc: seq<byte> -> nat, s: seq<byte>, t: seq<byte>, entries: seq<seq<byte>>)
    requires Replay(crc, s, ENTRIES_AT, []) == (entries, |s|)
    requires |s| <= |t| && t[..|s|] == s && ReadBatch(crc, t, |s|).None?
    ensures Replay(crc, t, ENTRIES_AT, []) == (entries, |s|)
  {
    if ENTRIES_AT < |s| {
      SameSlice(t, s, 0, |s|, ENTRIES_AT, |s|);
    }
    ReplayStable(crc, s, t, ENTRIES_AT, []);
    ReplayEnd(crc, t, |s|, entries);
  }

  /** A torn write after the last append is ignored by `open`. */
  lemma {:induction false} RecoverTorn(crc: seq<byte> -> nat, s: seq<byte>, tail: seq<byte>, head: Option<Head>, entries: seq<seq<byte>>, byteLength: nat)
    requires Recover(crc, s) == Ok(Recovery(head, entries, byteLength)) && |s| == ENTRIES_AT + byteLength
    requires ReadBatch(crc, s + tail, |s|).None?
    ensures Recover(crc, s + tail) == Recover(crc, s)
  {
    assert (s + tail)[..|s|] == s;
    RecoverTail(crc, s, s + tail, head, entries, byteLength);
  }

  /** `open` drops what follows the kept frames, and recovers the same. */
  lemma {:induction false} RecoverCut(crc: seq<byte> -> nat, s: seq<byte>, head: Option<Head>, entries: seq<seq<byte>>, byteLength: nat, end: nat)
    requires Recover(crc, s) == Ok(Recovery(head, entries, byteLength)) && end == ENTRIES_AT + byteLength < |s|
    ensures Recover(crc, s[..end]) == Recover(crc, s)
  {
    Recovered(crc, s, head, entries, byteLength);
    CutReplayed(crc, s, entries, end);
    CutHeader(s, end);
    RecoverSameHeader(crc, s, s[..end], head, entries, byteLength);
  }

  lemma {:induction false} CutHeader(s: seq<byte>, end: nat)
    requires ENTRIES_AT <= end <= |s|
    ensures HeaderRegion(s[..end]) == HeaderRegion(s)
  {
    var t := s[..end];
    assert s[..|t|] == t;
    HeaderRegionPrefix(t, s);
  }

  /** Cutting the file at the end of the kept frames keeps them all. */
  lemma {:induction false} CutReplayed(crc: seq<byte> -> nat, s: seq<byte>, entries: seq<seq<byte>>, end: nat)
    requires Replay(crc, s, ENTRIES_AT, []) == (entries, end) && end <= |s|
    ensures Replay(crc, s[..end], ENTRIES_AT, []) == (entries, end)
  {
    var t := s[..end];
    if ENTRIES_AT < end {
      assert t[ENTRIES_AT..end] == s[ENTRIES_AT..end];
    }
    ReplayStable(crc, s, t, ENTRIES_AT, []);
    ReplayEnd(crc, t, end, entries);
  }

  /** Bytes written at the end of the kept frames that read back as one
      append running to the end of the file: `open` then recovers the same
      header and the entries followed by the append's, `n` bytes of them. */
  lemma {:induction false} RecoverAppended(crc: seq<byte> -> nat, s: seq<byte>, head: Option<Head>, entries: seq<seq<byte>>, byteLength: nat, b: seq<byte>, batch: seq<seq<byte>>, n: nat)
    requires Recover(crc, s) == Ok(Recovery(head, entries, byteLength))
    requires b != [] && n == byteLength + |b| && |s| <= ENTRIES_AT + n
    requires ReadBatch(crc, WriteAt(s, ENTRIES_AT + byteLength, b), ENTRIES_AT + byteLength) == Some((batch, ENTRIES_AT + n))
    ensures Recover(crc, WriteAt(s, ENTRIES_AT + byteLength, b)) == Ok(Recovery(head, entries + batch, n))
  {
    AppendReplayed(crc, s, head, entries, byteLength, b, batch, n);
    RecoverWritten(crc, s, head, entries, byteLength, ENTRIES_AT + byteLength, b, entries + batch, n);
  }

  lemma {:induction false} AppendReplayed(crc: seq<byte> -> nat, s: seq<byte>, head: Option<Head>, entries: seq<seq<byte>>, byteLength: nat, b: seq<byte>, batch: seq<seq<byte>>, n: nat)
    requires Recover(crc, s) == Ok(Recovery(head, entries, byteLength))
    requires b != [] && n == byteLength + |b| && |s| <= ENTRIES_AT + n
    requires ReadBatch(crc, WriteAt(s, ENTRIES_AT + byteLength, b), ENTRIES_AT + byteLength) == Some((batch, ENTRIES_AT + n))
    ensures Replay(crc, WriteAt(s, ENTRIES_AT + byteLength, b), ENTRIES_AT, []) == (entries + batch, ENTRIES_AT + n)
  {
    Recovered(crc, s, head, entries, byteLength);
    ReplayWrite(crc, s, entries, byteLength, b, batch, n);
  }

  lemma {:induction false} ReplayWrite(crc: seq<byte> -> nat, s: seq<byte>, entries: seq<seq<byte>>, byteLength: nat, b: seq<byte>, batch: seq<seq<byte>>, n: nat)
    requires Replay(crc, s, ENTRIES_AT, []) == (entries, ENTRIES_AT + byteLength)
    requires b != [] && n == byteLength + |b| && |s| <= ENTRIES_AT + n
    requires ReadBatch(crc, WriteAt(s, ENTRIES_AT + byteLength, b), ENTRIES_AT + byteLength) == Some((batch, ENTRIES_AT + n))
    ensures Replay(crc, WriteAt(s, ENTRIES_AT + byteLength, b), ENTRIES_AT, []) == (entries + batch, ENTRIES_AT + n)
  {
    var at := ENTRIES_AT + byteLength;
    WrittenAt(s, at, b);
    ReplayThrough(crc, s, WriteAt(s, at, b), entries, at, batch, ENTRIES_AT + n);
  }

  /** A write past the header region keeps the header `open` finds. */
  lemma {:induction false} RecoverWritten(crc: seq<byte> -> nat, s: seq<byte>, head: Option<Head>, entries0: seq<seq<byte>>, byteLength0: nat, at: nat, b: seq<byte>, entries: seq<seq<byte>>, byteLength: nat)
    requires Recover(crc, s) == Ok(Recovery(head, entries0, byteLength0)) && ENTRIES_AT <= at
    requires Replay(crc, WriteAt(s, at, b), ENTRIES_AT, []) == (entries, ENTRIES_AT + byteLength)
    ensures Recover(crc, WriteAt(s, at, b)) == Ok(Recovery(head, entries, byteLength))
  {
    HeaderRegionWrite(s, at, b);
    RecoverSameHeader(crc, s, WriteAt(s, at, b), head, entries, byteLength);
  }

  /** `append` as the log performs it: the frames of a batch written at the
      end of the kept frames are recovered after the entries, and the kept
      bytes grow by the batch's frames (`n`). */
  lemma {:induction false} AppendRecovered(crc: seq<byte> -> nat, s: seq<byte>, head: Option<Head>, entries: seq<seq<byte>>, byteLength: nat, batch: seq<seq<byte>>, n: nat)
    requires Recover(crc, s) == Ok(Recovery(head, entries, byteLength))
    requires Fits(batch) && batch != [] && n == byteLength + Framed(batch) && |s| <= ENTRIES_AT + n
    ensures Recover(crc, WriteAt(s, ENTRIES_AT + byteLength, EncodeBatch(crc, batch)))
         == Ok(Recovery(head, entries + batch, n))
  {
    BatchWritten(crc, s, ENTRIES_AT + byteLength, batch, ENTRIES_AT + n);
    RecoverAppended(crc, s, head, entries, byteLength, EncodeBatch(crc, batch), batch, n);
  }

  /** `append` on a log in step with its file, an empty batch included: the
      file still recovers the log, and nothing follows its kept frames. */
  lemma {:induction false} AppendSynced(crc: seq<byte> -> nat, s: seq<byte>, head: Option<Head>, entries: seq<seq<byte>>, byteLength: nat, batch: seq<seq<byte>>, n: nat)
    requires Recover(crc, s) == Ok(Recovery(head, entries, byteLength)) && |s| <= ENTRIES_AT + byteLength
    requires Fits(batch) && n == byteLength + Framed(batch)
    ensures Recover(crc, WriteAt(s, ENTRIES_AT + byteLength, EncodeBatch(crc, batch))) == Ok(Recovery(head, entries + batch, n))
    ensures |WriteAt(s, ENTRIES_AT + byteLength, EncodeBatch(crc, batch))| <= ENTRIES_AT + n
  {
    if batch == [] {
      AppendNothing(crc, s, byteLength, entries, batch, n);
    } else {
      AppendRecovered(crc, s, head, entries, byteLength, batch, n);
    }
  }

  lemma {:induction false} AppendNothing(crc: seq<byte> -> nat, s: seq<byte>, byteLength: nat, entries: seq<seq<byte>>, batch: seq<seq<byte>>, n: nat)
    requires batch == [] && n == byteLength + Framed(batch)
    ensures WriteAt(s, ENTRIES_AT + byteLength, EncodeBatch(crc, batch)) == s
    ensures entries + batch == entries && n == byteLength
  {
  }

  /** The frames of a batch, written over the end of the file, read back as
      the batch. */
  lemma {:induction false} BatchWritten(crc: seq<byte> -> nat, s: seq<byte>, at: nat, batch: seq<seq<byte>>, end: nat)
    requires Fits(batch) && batch != [] && end == at + Framed(batch) && |s| <= end
    ensures ReadBatch(crc, WriteAt(s, at, EncodeBatch(crc, batch)), at) == Some((batch, end))
  {
    var b := EncodeBatch(crc, batch);
    var t := WriteAt(s, at, b);
    WrittenAt(s, at, b);
    ReadBatchAt(crc, t, at, batch, end);
  }

  lemma {:induction false} ReplayThrough(crc: seq<byte> -> nat, s: seq<byte>, t: seq<byte>, entries: seq<seq<byte>>, at: nat, batch: seq<seq<byte>>, end: nat)
    requires Replay(crc, s, ENTRIES_AT, []) == (entries, at)
    requires |t| == end && ReadBatch(crc, t, at) == Some((batch, end))
    requires at <= |s| ==> t[0..at] == s[0..at]
    ensures Replay(crc, t, ENTRIES_AT, []) == (entries + batch, end)
  {
    if ENTRIES_AT < at {
      SameSlice(t, s, 0, at, ENTRIES_AT, at);
    }
    ReplayStable(crc, s, t, ENTRIES_AT, []);
    ReplayNext(crc, t, at, entries, batch, end);
    assert ReadBatch(crc, t, end) == None;
    ReplayEnd(crc, t, end, entries + batch);
  }

  /** A write keeps the bytes before it and holds its own bytes. */
  lemma {:induction false} WrittenAt(s: seq<byte>, off: nat, b: seq<byte>)
    requires b != []
    ensures off <= |s| ==> WriteAt(s, off, b)[0..off] == s[0..off]
    ensures WriteAt(s, off, b)[off..off + |b|] == b
  {
  }

  /** A torn entry as a crashed append leaves it: a length word promising
      two payload bytes that never arrived. */
  const TORN: seq<byte> := [0, 0, 0, 0, 4, 0, 0, 0]

  lemma {:induction false} TornUnread(crc: seq<byte> -> nat, s: seq<byte>)
    ensures ReadBatch(crc, s + TORN, |s|) == None
  {
    var t := s + TORN;
    assert t[|s| + 4..|s| + 8] == [4, 0, 0, 0];
    BlankNumber([0, 0, 0]);
    assert [4, 0, 0, 0][1..] == [0, 0, 0];
    assert ReadUint32(t, |s| + 4) == 4;
  }

  /** `open` ignores a torn entry after the last append. */
  lemma {:induction false} TornIgnored(crc: seq<byte> -> nat, s: seq<byte>, head: Option<Head>, entries: seq<seq<byte>>, byteLength: nat)
    requires Recover(crc, s) == Ok(Recovery(head, entries, byteLength)) && |s| == ENTRIES_AT + byteLength
    ensures Recover(crc, s + TORN) == Recover(crc, s)
  {
    TornUnread(crc, s);
    RecoverTorn(crc, s, TORN, head, entries, byteLength);
  }

  /** Bytes after the last append that do not read as one, overwritten by
      the next append: `open` recovers the entries followed by the new one. */
  lemma {:induction false} TailOverwritten(crc: seq<byte> -> nat, s: seq<byte>, tail: seq<byte>, head: Option<Head>, entries: seq<seq<byte>>, byteLength: nat, entry: seq<byte>, n: nat)
    requires Recover(crc, s) == Ok(Recovery(head, entries, byteLength)) && |s| == ENTRIES_AT + byteLength
    requires ReadBatch(crc, s + tail, |s|).None? && |tail| <= 8 + |entry|
    requires |entry| < MAX_PAYLOAD && n == byteLength + 8 + |entry|
    ensures Recover(crc, WriteAt(s + tail, ENTRIES_AT + byteLength, EncodeBatch(crc, [entry])))
         == Ok(Recovery(head, entries + [entry], n))
  {
    RecoverTorn(crc, s, tail, head, entries, byteLength);
    AppendOne(crc, s + tail, head, entries, byteLength, entry, n);
  }

  /** `append` of a single entry. */
  lemma {:induction false} AppendOne(crc: seq<byte> -> nat, s: seq<byte>, head: Option<Head>, entries: seq<seq<byte>>, byteLength: nat, entry: seq<byte>, n: nat)
    requires Recover(crc, s) == Ok(Recovery(head, entries, byteLength)) && |s| <= ENTRIES_AT + n
    requires |entry| < MAX_PAYLOAD && n == byteLength + 8 + |entry|
    ensures Recover(crc, WriteAt(s, ENTRIES_AT + byteLength, EncodeBatch(crc, [entry])))
         == Ok(Recovery(head, entries + [entry], n))
  {
    FramedSingle(entry);
    AppendRecovered(crc, s, head, entries, byteLength, [entry], n);
  }

  /** The bytes `s` with the last one replaced by `x`. */
  function SetLast(s: seq<byte>, x: byte): (r: seq<byte>)
    requires s != []
    ensures |r| == |s| && r[..|s| - 1] == s[..|s| - 1] && r[|s| - 1] == x
  {
    s[|s| - 1 := x]
  }

  lemma {:induction false} SetLastAppended(a: seq<byte>, b: seq<byte>, x: byte)
    requires b != []
    ensures SetLast(a + b, x) == a + SetLast(b, x)
  {
  }

  /** The checksum tells the body of the frame around `last` from the same
      body with its last byte replaced by `x`. */
  ghost predicate Detects(crc: seq<byte> -> nat, last: seq<byte>, x: byte)
    requires |last| < MAX_PAYLOAD
  {
    var body := Encode(crc, last, false)[4..];
    Checksum(crc, SetLast(body, x)) != Checksum(crc, body)
  }

  /** A multi-entry append is atomic: when the checksum catches a change to
      the last byte of its last frame, `open` drops every entry of it. */
  lemma {:induction false} LastByteCorrupted(crc: seq<byte> -> nat, s: seq<byte>, head: Option<Head>, entries: seq<seq<byte>>, byteLength: nat, batch: seq<seq<byte>>, x: byte)
    requires Recover(crc, s) == Ok(Recovery(head, entries, byteLength)) && |s| == ENTRIES_AT + byteLength
    requires Fits(batch) && batch != [] && batch[|batch| - 1] != []
    requires Detects(crc, batch[|batch| - 1], x)
    ensures Recover(crc, SetLast(s + EncodeBatch(crc, batch), x)) == Recover(crc, s)
  {
    var b := EncodeBatch(crc, batch);
    BatchCorrupted(crc, s, batch, x);
    SetLastAppended(s, b, x);
    RecoverTorn(crc, s, SetLast(b, x), head, entries, byteLength);
  }

  /** The frames of a batch whose last byte changed where the checksum tells
      no longer read as an append. */
  lemma {:induction false} BatchCorrupted(crc: seq<byte> -> nat, s: seq<byte>, batch: seq<seq<byte>>, x: byte)
    requires Fits(batch) && batch != [] && batch[|batch| - 1] != []
    requires Detects(crc, batch[|batch| - 1], x)
    ensures EncodeBatch(crc, batch) != []
    ensures ReadBatch(crc, s + SetLast(EncodeBatch(crc, batch), x), |s|) == None
  {
    var init, last := batch[..|batch| - 1], batch[|batch| - 1];
    var p, q := Partials(crc, init), Encode(crc, last, false);
    EncodeBatchSplit(crc, batch);
    SetLastAppended(p, q, x);
    CorruptedUnread(crc, s, init, last, x);
  }

  lemma {:induction false} EncodeBatchSplit(crc: seq<byte> -> nat, batch: seq<seq<byte>>)
    requires Fits(batch) && batch != []
    ensures Fits(batch[..|batch| - 1])
    ensures EncodeBatch(crc, batch) == Partials(crc, batch[..|batch| - 1]) + Encode(crc, batch[|batch| - 1], false)
  {
    var init := batch[..|batch| - 1];
    forall i | 0 <= i < |init| ensures |init[i]| < MAX_PAYLOAD {
      assert init[i] == batch[i];
    }
  }

  lemma {:induction false} CorruptedUnread(crc: seq<byte> -> nat, s: seq<byte>, init: seq<seq<byte>>, last: seq<byte>, x: byte)
    requires Fits(init) && |last| < MAX_PAYLOAD && last != []
    requires Detects(crc, last, x)
    ensures ReadBatch(crc, s + (Partials(crc, init) + SetLast(Encode(crc, last, false), x)), |s|) == None
  {
    var p, q' := Partials(crc, init), SetLast(Encode(crc, last, false), x);
    var u := s + (p + q');
    var mid := |s| + |p|;
    Concat3(s, p, q');
    PartialsChain(crc, u, |s|, init, mid);
    ReadPartials(crc, u, |s|, init, mid);
    LastFrameCorrupted(crc, s + p, last, x);
  }

  lemma {:induction false} Concat3<T>(a: seq<T>, b: seq<T>, c: seq<T>)
    ensures (a + (b + c))[|a|..|a| + |b|] == b && a + (b + c) == a + b + c
  {
  }

  /** The last frame, its last byte changed where the checksum tells. */
  lemma {:induction false} LastFrameCorrupted(crc: seq<byte> -> nat, prefix: seq<byte>, last: seq<byte>, x: byte)
    requires |last| < MAX_PAYLOAD && last != []
    requires Detects(crc, last, x)
    ensures ReadBatch(crc, prefix + SetLast(Encode(crc, last, false), x), |prefix|) == None
  {
    var q := Encode(crc, last, false);
    var s := prefix + q;
    var i := |s| - 1;
    DecodeEncoded(crc, prefix, last, false, []);
    assert prefix + q + [] == s;
    assert s[|prefix| + 4..|s|] == q[4..];
    assert s[i := x][|prefix| + 4..|s|] == SetLast(q[4..], x);
    DecodeDetects(crc, s, |prefix|, i, x);
    SetLastAppended(prefix, q, x);
  }

  /** A slot whose length word claims more bytes than the slot holds does
      not read, whatever the checksum. */
  lemma {:induction false} LongFrameUnread(crc: seq<byte> -> nat, s: seq<byte>, k: nat)
    requires k < 2 && SLOT_SIZE < 8 + FromLittleEndian(Window(s, k)[4..8]) / 2
    ensures ReadSlot(crc, s, k) == None
  {
  }

  /** The checksum notices any change to one byte of a body: true of a CRC,
      which catches every error burst of up to 32 bits. */
  ghost predicate ByteDetects(crc: seq<byte> -> nat)
  {
    forall body: seq<byte>, i: nat, x: byte {:trigger Checksum(crc, body[i := x])} ::
      i < |body| && body[i] != x ==> Checksum(crc, body[i := x]) != Checksum(crc, body)
  }

  /** One byte written into slot `k` changes its window at that byte only. */
  lemma {:induction false} WindowWritten(s: seq<byte>, k: nat, i: nat, x: byte)
    requires k < 2 && i < SLOT_SIZE
    ensures Window(WriteAt(s, k * SLOT_SIZE + i, [x]), k) == Window(s, k)[i := x]
  {
    var w := WriteAt(s, k * SLOT_SIZE + i, [x]);
    forall j | 0 <= j < SLOT_SIZE ensures Window(w, k)[j] == Window(s, k)[i := x][j] {
      WriteAtAt(s, k * SLOT_SIZE + i, [x], k * SLOT_SIZE + j);
    }
  }

  /** Overwriting the low byte of a slot's version with another value
      leaves the slot unreadable under a checksum that notices it. */
  lemma {:induction false} VersionByteFlipped(crc: seq<byte> -> nat, s: seq<byte>, k: nat, x: byte)
    requires k < 2 && ByteDetects(crc)
    requires ReadSlot(crc, s, k).Some? && ReadSlot(crc, s, k).value.version % 256 != x as nat
    ensures ReadSlot(crc, WriteAt(s, k * SLOT_SIZE + 8, [x]), k) == None
  {
    var w := Window(s, k);
    var rec := Decode(crc, w, 0).value;
    var p := rec.payload;
    assert p == w[8..rec.next];
    assert p[..8][1..] == p[1..8];
    assert FromLittleEndian(p[..8]) % 256 == p[0];
    assert w[8] == p[0];
    var body := w[4..rec.next];
    assert body[4] == w[8];
    assert w[8 := x][4..rec.next] == body[4 := x];
    assert Checksum(crc, body[4 := x]) != Checksum(crc, body);
    DecodeDetects(crc, w, 0, 8, x);
    WindowWritten(s, k, 8, x);
  }

  /** One slot corrupted: `open` recovers the other slot's header and the same
      entries. */
  lemma {:induction false} OtherSlotWins(crc: seq<byte> -> nat, s: seq<byte>, head: Option<Head>, entries: seq<seq<byte>>, byteLength: nat, k: nat, off: nat, b: seq<byte>)
    requires Recover(crc, s) == Ok(Recovery(head, entries, byteLength))
    requires k < 2 && ENTRIES_AT <= |s| && k * SLOT_SIZE <= off && off + |b| <= (k + 1) * SLOT_SIZE
    requires ReadSlot(crc, s, 1 - k).Some?
    requires ReadSlot(crc, WriteAt(s, off, b), k).None?
    ensures var other := ReadSlot(crc, s, 1 - k).value;
      Recover(crc, WriteAt(s, off, b)) == Ok(Recovery(Some(Head(1 - k, other.version, other.header)), entries, byteLength))
  {
    var other := ReadSlot(crc, s, 1 - k).value;
    OtherSlotCurrent(crc, s, k, off, b);
    HeaderWriteReplayed(crc, s, head, entries, byteLength, off, b);
    RecoverFrom(crc, WriteAt(s, off, b), Some(Head(1 - k, other.version, other.header)), entries, byteLength);
  }

  lemma {:induction false} OtherSlotCurrent(crc: seq<byte> -> nat, s: seq<byte>, k: nat, off: nat, b: seq<byte>)
    requires k < 2 && k * SLOT_SIZE <= off && off + |b| <= (k + 1) * SLOT_SIZE
    requires ReadSlot(crc, s, 1 - k).Some? && ReadSlot(crc, WriteAt(s, off, b), k).None?
    ensures var other := ReadSlot(crc, s, 1 - k).value;
      Current(crc, WriteAt(s, off, b)) == Some(Head(1 - k, other.version, other.header))
  {
    SlotKept(crc, s, 1 - k, off, b);
    CurrentOfOne(crc, WriteAt(s, off, b), k);
  }

  /** With one slot unreadable, the other one is the current header. */
  lemma {:induction false} CurrentOfOne(crc: seq<byte> -> nat, s: seq<byte>, k: nat)
    requires k < 2 && ReadSlot(crc, s, k).None? && ReadSlot(crc, s, 1 - k).Some?
    ensures var other := ReadSlot(crc, s, 1 - k).value;
      Current(crc, s) == Some(Head(1 - k, other.version, other.header))
  {
    if k == 0 {
      NewestOfOne(ReadSlot(crc, s, 0), ReadSlot(crc, s, 1), 0);
    } else {
      NewestOfOne(ReadSlot(crc, s, 0), ReadSlot(crc, s, 1), 1);
    }
  }

  lemma {:induction false} NewestOfOne(a: Option<Slot>, b: Option<Slot>, k: nat)
    requires k < 2 && (if k == 0 then a.None? && b.Some? else b.None? && a.Some?)
    ensures k == 0 ==> Newest(a, b) == Some(Head(1, b.value.version, b.value.header))
    ensures k == 1 ==> Newest(a, b) == Some(Head(0, a.value.version, a.value.header))
  {
  }

  lemma {:induction false} HeaderWriteReplayed(crc: seq<byte> -> nat, s: seq<byte>, head: Option<Head>, entries: seq<seq<byte>>, byteLength: nat, off: nat, b: seq<byte>)
    requires Recover(crc, s) == Ok(Recovery(head, entries, byteLength))
    requires off + |b| <= ENTRIES_AT <= |s|
    ensures Replay(crc, WriteAt(s, off, b), ENTRIES_AT, []) == (entries, ENTRIES_AT + byteLength)
  {
    Recovered(crc, s, head, entries, byteLength);
    WriteInHeader(s, off, b);
    ReplaySuffix(crc, s, WriteAt(s, off, b), ENTRIES_AT, ENTRIES_AT, []);
  }

  /** A write inside the header region leaves the entries as they were. */
  lemma {:induction false} WriteInHeader(s: seq<byte>, off: nat, b: seq<byte>)
    requires off + |b| <= ENTRIES_AT <= |s|
    ensures |WriteAt(s, off, b)| == |s|
    ensures forall i :: ENTRIES_AT <= i < |s| ==> WriteAt(s, off, b)[i] == s[i]
  {
    forall i | ENTRIES_AT <= i < |s| ensures WriteAt(s, off, b)[i] == s[i] {
      WriteAtAt(s, off, b, i);
    }
  }

  /** The file after `flush`: the next slot holds the header with the next
      version, and the entries are cut away. */
  function Flushed(crc: seq<byte> -> nat, s: seq<byte>, head: Option<Head>, header: seq<byte>): (r: seq<byte>)
    requires NextVersion(head) < TWO_64 && 16 + |header| <= SLOT_SIZE
    ensures |r| == ENTRIES_AT
  {
    Truncate(WriteAt(s, NextSlot(head) * SLOT_SIZE, SlotBytes(crc, NextVersion(head), header)), ENTRIES_AT)
  }

  /** After `flush`, `open` recovers the header just written and no entries. */
  lemma {:induction false} RecoverFlushed(crc: seq<byte> -> nat, s: seq<byte>, head: Option<Head>, header: seq<byte>)
    requires NextVersion(head) < TWO_64 && 16 + |header| <= SLOT_SIZE
    requires Current(crc, s) == head
    ensures Recover(crc, Flushed(crc, s, head, header))
         == Ok(Recovery(Some(Head(NextSlot(head), NextVersion(head), header)), [], 0))
  {
    FlushedSlots(crc, s, head, header);
    RecoverHeaderOnly(crc, Flushed(crc, s, head, header), Some(Head(NextSlot(head), NextVersion(head), header)));
  }

  /** A file that ends with the header region holds no entries. */
  lemma {:induction false} RecoverHeaderOnly(crc: seq<byte> -> nat, t: seq<byte>, head: Option<Head>)
    requires |t| == ENTRIES_AT && Current(crc, t) == head && head.Some?
    ensures Recover(crc, t) == Ok(Recovery(head, [], 0))
  {
    assert ReadBatch(crc, t, ENTRIES_AT) == None;
    ReplayEnd(crc, t, ENTRIES_AT, []);
    RecoverFrom(crc, t, head, [], 0);
  }

  /** The newest slot after `flush` is the one it wrote. */
  lemma {:induction false} FlushedSlots(crc: seq<byte> -> nat, s: seq<byte>, head: Option<Head>, header: seq<byte>)
    requires NextVersion(head) < TWO_64 && 16 + |header| <= SLOT_SIZE
    requires Current(crc, s) == head
    ensures Current(crc, Flushed(crc, s, head, header)) == Some(Head(NextSlot(head), NextVersion(head), header))
  {
    var k := NextSlot(head);
    var f := SlotBytes(crc, NextVersion(head), header);
    var w := WriteAt(s, k * SLOT_SIZE, f);
    var t := Flushed(crc, s, head, header);
    forall i | 0 <= i < ENTRIES_AT ensures At(t, i) == At(w, i) {
      TruncateAt(w, ENTRIES_AT, i);
    }
    HeaderRegionSame(w, t);
    SlotsOfRegion(crc, w, t);
    SlotWritten(crc, s, k, NextVersion(head), header);
    SlotKept(crc, s, 1 - k, k * SLOT_SIZE, f);
  }

  /** `flush` leaves the slot it does not write as it was, so a torn slot
      write still leaves the previous header readable. */
  lemma {:induction false} FlushedOther(crc: seq<byte> -> nat, s: seq<byte>, head: Option<Head>, header: seq<byte>)
    requires NextVersion(head) < TWO_64 && 16 + |header| <= SLOT_SIZE
    ensures ReadSlot(crc, Flushed(crc, s, head, header), 1 - NextSlot(head)) == ReadSlot(crc, s, 1 - NextSlot(head))
  {
    var k := NextSlot(head);
    var f := SlotBytes(crc, NextVersion(head), header);
    var w := WriteAt(s, k * SLOT_SIZE, f);
    var t := Flushed(crc, s, head, header);
    forall i | 0 <= i < ENTRIES_AT ensures At(t, i) == At(w, i) {
      TruncateAt(w, ENTRIES_AT, i);
    }
    HeaderRegionSame(w, t);
    SlotsOfRegion(crc, w, t);
    SlotKept(crc, s, 1 - k, k * SLOT_SIZE, f);
  }

  /** What the frame-by-frame scan of `open` finds is what `Recover` says,
      also once the bytes after the kept frames are cut away. */
  lemma {:induction false} Opened(crc: seq<byte> -> nat, s: seq<byte>, head: Option<Head>, entries: seq<seq<byte>>, end: nat)
    requires head == Current(crc, s) && (head.Some? || Blank(HeaderRegion(s)))
    requires (entries, end) == Scan(crc, s, ENTRIES_AT, [], [], ENTRIES_AT)
    ensures ENTRIES_AT <= end && Framed(entries) == end - ENTRIES_AT
    ensures Recover(crc, s) == Ok(Recovery(head, entries, end - ENTRIES_AT))
    ensures Recover(crc, CutAt(s, end)) == Recover(crc, s) && |CutAt(s, end)| <= end
  {
    Scanned(crc, s, entries, end);
    RecoverFrom(crc, s, head, entries, end - ENTRIES_AT);
    CutKept(crc, s, head, entries, end - ENTRIES_AT, end);
  }

  /** The file cut at `end`, if it runs past it. */
  function CutAt(s: seq<byte>, end: nat): (r: seq<byte>)
  {
    if end < |s| then s[..end] else s
  }

  /** `open` cuts the file at the end of the kept frames and recovers the same. */
  lemma {:induction false} CutKept(crc: seq<byte> -> nat, s: seq<byte>, head: Option<Head>, entries: seq<seq<byte>>, byteLength: nat, end: nat)
    requires Recover(crc, s) == Ok(Recovery(head, entries, byteLength)) && end == ENTRIES_AT + byteLength
    ensures Recover(crc, CutAt(s, end)) == Recover(crc, s) && |CutAt(s, end)| <= end
  {
    if end < |s| {
      RecoverCut(crc, s, head, entries, byteLength, end);
    }
  }

  lemma {:induction false} Scanned(crc: seq<byte> -> nat, s: seq<byte>, entries: seq<seq<byte>>, end: nat)
    requires (entries, end) == Scan(crc, s, ENTRIES_AT, [], [], ENTRIES_AT)
    ensures ENTRIES_AT <= end && Replay(crc, s, ENTRIES_AT, []) == (entries, ENTRIES_AT + (end - ENTRIES_AT))
  {
    ScanReplay(crc, s, ENTRIES_AT, []);
  }

  /** The scan of `open`, frame by frame: partial frames wait in `pending`
      until the frame that completes their append. */
  method ScanEntries(crc: seq<byte> -> nat, s: seq<byte>) returns (done: seq<seq<byte>>, end: nat)
    ensures (done, end) == Scan(crc, s, ENTRIES_AT, [], [], ENTRIES_AT)
  {
    var at: nat := ENTRIES_AT;
    var pending := [];
    done, end := [], ENTRIES_AT;
    while true
      invariant at <= |s| + ENTRIES_AT
      invariant Scan(crc, s, at, pending, done, end) == Scan(crc, s, ENTRIES_AT, [], [], ENTRIES_AT)
      decreases |s| + ENTRIES_AT - at
    {
      var rec := Decode(crc, s, at);
      if rec.None? {
        return;
      }
      if rec.value.partial {
        pending := pending + [rec.value.payload];
      } else {
        done, pending, end := done + pending + [rec.value.payload], [], rec.value.next;
      }
      at := rec.value.next;
    }
  }

  /** What `open` finds in the file `s`: the current header, the entries,
      their byte length and the file cut after the last kept frame. */
  method OpenFile(crc: seq<byte> -> nat, s: seq<byte>) returns (r: Result<(Option<Head>, seq<seq<byte>>, nat, seq<byte>)>)
    ensures r.Err? <==> Recover(crc, s).Err?
    ensures r.Err? ==> r.error == Corruption
    ensures r.Ok? ==> && Recover(crc, s) == Ok(Recovery(r.value.0, r.value.1, r.value.2))
                      && Recover(crc, r.value.3) == Recover(crc, s)
                      && |r.value.3| <= ENTRIES_AT + r.value.2
  {
    var current := Current(crc, s);
    if current.None? && !Blank(HeaderRegion(s)) {
      return Err(Corruption);
    }
    var done, end := ScanEntries(crc, s);
    Opened(crc, s, current, done, end);
    var found := Recovery(current, done, end - ENTRIES_AT);
    assert Recover(crc, s) == Ok(found);
    return Ok((found.head, found.entries, found.byteLength, CutAt(s, end)));
  }

  /** Writes the frames of `batch` after the kept frames of `s`; a file
      that recovered to the kept frames then recovers to them and the batch. */
  method WriteBatch(crc: seq<byte> -> nat, s: seq<byte>, ghost head: Option<Head>, ghost entries: seq<seq<byte>>,
                    byteLength: nat, batch: seq<seq<byte>>, ghost synced: bool) returns (written: seq<byte>, n: nat)
    requires Fits(batch)
    requires synced ==> Recover(crc, s) == Ok(Recovery(head, entries, byteLength)) && |s| <= ENTRIES_AT + byteLength
    ensures written == WriteAt(s, ENTRIES_AT + byteLength, EncodeBatch(crc, batch))
    ensures n == byteLength + Framed(batch)
    ensures synced ==> Recover(crc, written) == Ok(Recovery(head, entries + batch, n)) && |written| <= ENTRIES_AT + n
  {
    written := WriteAt(s, ENTRIES_AT + byteLength, EncodeBatch(crc, batch));
    n := byteLength + Framed(batch);
    if synced {
      AppendSynced(crc, s, head, entries, byteLength, batch, n);
    }
  }

  // ---------------------------------------------------------------------
  // The log object.

  class Log {
    const crc: seq<byte> -> nat
    var storage: seq<byte>
    /** The header slot `open` or `flush` last settled on. */
    var head: Option<Head>
    var length: nat
    var byteLength: nat
    ghost var entries: seq<seq<byte>>

    ghost predicate Valid()
      reads this
    {
      length == |entries| && byteLength == Framed(entries)
    }

    /** Reopening the file would find this very state. */
    ghost predicate Synced()
      reads this
    {
      Recover(crc, storage) == Ok(Recovery(head, entries, byteLength))
    }

    /** Nothing follows the kept frames, so the next append lands at the end. */
    ghost predicate Clean()
      reads this
    {
      |storage| <= ENTRIES_AT + byteLength
    }

    constructor(crc: seq<byte> -> nat, storage: seq<byte>)
      ensures this.crc == crc && this.storage == storage
      ensures head == None && entries == [] && Valid()
      ensures storage == [] ==> Synced() && Clean()
    {
      this.crc := crc;
      this.storage := storage;
      head := None;
      length := 0;
      byteLength := 0;
      entries := [];
      new;
      if storage == [] {
        RecoverEmpty(crc);
      }
    }

    /** Recovery: the newest slot that checks out, then the entries frame by
        frame up to the first that does not; a torn tail is cut away. */
    method Open() returns (r: Result<(Option<seq<byte>>, seq<seq<byte>>)>)
      modifies this
      ensures Recover(crc, old(storage)).Err? ==> r == Err(Corruption) && unchanged(this)
      ensures Recover(crc, old(storage)).Ok? ==>
        && Recover(crc, old(storage)) == Ok(Recovery(head, entries, byteLength))
        && r == Ok((HeaderOf(head), entries))
        && Valid() && Synced() && Clean()
    {
      var found := OpenFile(crc, storage);
      if found.Err? {
        return Err(found.error);
      }
      var (current, done, n, cut) := found.value;
      head, entries, length, byteLength := current, done, |done|, n;
      storage := cut;
      return Ok((HeaderOf(current), done));
    }

    /** Writes `header` with the next version into the slot not holding the
        current one, then cuts the entries away. A failed slot write (`fails`)
        leaves the file and the log as they were. */
    method Flush(header: seq<byte>, fails: bool, ghost current: bool) returns (r: Result<()>)
      requires NextVersion(head) < TWO_64 && 16 + |header| <= SLOT_SIZE
      requires current ==> Current(crc, storage) == head
      modifies this
      ensures fails ==> r == Err(WriteFailed) && unchanged(this)
      ensures !fails ==> && r == Ok(())
                         && storage == Flushed(crc, old(storage), old(head), header)
                         && head == Some(Head(NextSlot(old(head)), NextVersion(old(head)), header))
                         && entries == [] && Valid()
      ensures !fails ==> ReadSlot(crc, storage, 1 - NextSlot(old(head))) == ReadSlot(crc, old(storage), 1 - NextSlot(old(head)))
      ensures !fails && current ==> Synced() && Clean()
    {
      if fails {
        return Err(WriteFailed);
      }
      ghost var was, before := storage, head;
      storage := Flushed(crc, storage, head, header);
      head := Some(Head(NextSlot(head), NextVersion(head), header));
      entries, length, byteLength := [], 0, 0;
      if current {
        RecoverFlushed(crc, was, before, header);
      }
      FlushedOther(crc, was, before, header);
      return Ok(());
    }

    /** Writes the batch's frames at the end of the kept frames. */
    method Append(batch: seq<seq<byte>>, ghost synced: bool)
      requires Fits(batch) && Valid()
      requires synced ==> Synced() && Clean()
      modifies this
      ensures storage == WriteAt(old(storage), ENTRIES_AT + old(byteLength), EncodeBatch(crc, batch))
      ensures head == old(head) && entries == old(entries) + batch && Valid()
      ensures length == old(length) + |batch| && byteLength == old(byteLength) + Framed(batch)
      ensures synced ==> Synced() && Clean()
    {
      var written, n := WriteBatch(crc, storage, head, entries, byteLength, batch, synced);
      FramedConcat(entries, batch);
      storage, entries, length, byteLength := written, entries + batch, length + |batch|, n;
    }
  }
}
