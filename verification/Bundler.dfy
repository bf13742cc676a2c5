/** The archive bundler: packing per-book archives into numbered, size-capped
    parts, the fixed-size batchers, and the eviction rule for ad-hoc bundles. */
module Bundler {

  /** One entry of the build list: the per-book archive's file name, whether it
      exists in the export directory, and its compressed size inside a part. */
  datatype Archive = Archive(name: string, present: bool, size: nat)

  /** A produced part: its base name (`1.zip`, `2.zip`, ...) and the archives
      written into it, in the order they were written. */
  datatype Part = Part(name: string, members: seq<Archive>)

  function Digit(d: nat): char
    requires d < 10
  {
    "0123456789"[d]
  }

  /** Decimal rendering of a natural number, as Python's f-string prints it. */
  function NatToString(n: nat): (s: string)
    ensures |s| > 0
    ensures forall i :: 0 <= i < |s| ==> '0' <= s[i] <= '9'
  {
    if n < 10 then [Digit(n)] else NatToString(n / 10) + [Digit(n % 10)]
  }

  /** The value of a string of decimal digits; any other character counts 0. */
  function ParseNat(s: string): nat {
    if |s| == 0 then 0
    else
      var c := s[|s| - 1];
      10 * ParseNat(s[..|s| - 1]) + (if '0' <= c <= '9' then c as int - '0' as int else 0)
  }

  lemma DigitValue(d: nat)
    requires d < 10
    ensures '0' <= Digit(d) <= '9' && Digit(d) as int - '0' as int == d
  {
    if d == 0 {} else if d == 1 {} else if d == 2 {} else if d == 3 {} else if d == 4 {}
    else if d == 5 {} else if d == 6 {} else if d == 7 {} else if d == 8 {} else {}
  }

  /** The decimal rendering reads back as the number. */
  lemma {:induction false} NatToStringRoundTrip(n: nat)
    ensures ParseNat(NatToString(n)) == n
  {
    DigitValue(n % 10);
    if n < 10 {
      assert [Digit(n)][..0] == [];
    } else {
      var s := NatToString(n);
      assert s[..|s| - 1] == NatToString(n / 10);
      NatToStringRoundTrip(n / 10);
    }
  }

  /** The base name of the `i`-th part: decimal digits, then `.zip`; the part
      number reads back from the name, so distinct parts have distinct names. */
  function PartName(i: nat): (name: string)
    ensures |name| > 4 && name[|name| - 4..] == ".zip"
    ensures ParseNat(name[..|name| - 4]) == i
  {
    var digits := NatToString(i);
    NatToStringRoundTrip(i);
    assert (digits + ".zip")[..|digits|] == digits;
    digits + ".zip"
  }

  /** Running compressed size of the archives written so far. */
  function Total(members: seq<Archive>): nat {
    if |members| == 0 then 0 else Total(members[..|members| - 1]) + members[|members| - 1].size
  }

  /** The archives that exist on disk, in build-list order. */
  function Present(books: seq<Archive>): seq<Archive> {
    if |books| == 0 then []
    else Present(books[..|books| - 1]) + (if books[|books| - 1].present then [books[|books| - 1]] else [])
  }

  /** Everything written, part after part. */
  function Flatten(parts: seq<Part>): seq<Archive> {
    if |parts| == 0 then [] else Flatten(parts[..|parts| - 1]) + parts[|parts| - 1].members
  }

  /** Before every write but the first, the part's running size was at most the cap
      (otherwise the part would already have been closed). */
  ghost predicate RunningSizesWithinCap(p: Part, cap: int) {
    forall j :: 1 <= j < |p.members| ==> Total(p.members[..j]) <= cap
  }

  lemma TotalAppend(m: seq<Archive>, b: Archive)
    ensures Total(m + [b]) == Total(m) + b.size
  {
    assert (m + [b])[..|m|] == m;
  }

  /** Part `k` is called `k.zip`, counting from one. */
  ghost predicate NumberedFromOne(parts: seq<Part>) {
    forall k :: 0 <= k < |parts| ==> parts[k].name == PartName(k + 1)
  }

  /** Every part but the last is non-empty and was closed for exceeding the cap. */
  ghost predicate ClosedPartsOverCap(parts: seq<Part>, cap: int) {
    forall k :: 0 <= k < |parts| - 1 ==> |parts[k].members| > 0 && Total(parts[k].members) > cap
  }

  ghost predicate AllWithinCap(parts: seq<Part>, cap: int) {
    forall k :: 0 <= k < |parts| ==> RunningSizesWithinCap(parts[k], cap)
  }

  /** The builder's loop state: the parts so far (`filenames`, with their
      contents), whether a part is open (`z`), and its running size. */
  datatype Builder = Builder(parts: seq<Part>, open: bool, current: int)

  /** One turn of the loop for the next title `b`. */
  function Step(st: Builder, b: Archive, cap: int): Builder
    requires st.open ==> |st.parts| > 0
  {
    var withPart := if st.open then st else Builder(st.parts + [Part(PartName(|st.parts| + 1), [])], true, 0);
    if !b.present then withPart
    else
      var i := |withPart.parts| - 1;
      var parts := withPart.parts[..i] + [Part(withPart.parts[i].name, withPart.parts[i].members + [b])];
      var current := withPart.current + b.size;
      Builder(parts, current <= cap, current)
  }

  function LastMembers(parts: seq<Part>): seq<Archive>
    requires |parts| > 0
  {
    parts[|parts| - 1].members
  }

  /** What holds of the builder after the titles `done` have been handled. */
  ghost predicate Packing(st: Builder, cap: int, done: seq<Archive>) {
    && (|st.parts| == 0 <==> |done| == 0)
    && NumberedFromOne(st.parts) && ClosedPartsOverCap(st.parts, cap) && AllWithinCap(st.parts, cap)
    && Flatten(st.parts) == Present(done)
    && (|st.parts| > 0 ==> st.current == Total(LastMembers(st.parts)))
    && (st.open ==> |st.parts| > 0 && (|LastMembers(st.parts)| > 0 ==> st.current <= cap))
    && (!st.open && |st.parts| > 0 ==> |LastMembers(st.parts)| > 0 && st.current > cap)
    && (|done| > 0 && done[|done| - 1].present ==> |LastMembers(st.parts)| > 0)
    && (|done| > 0 && !done[|done| - 1].present ==> st.open)
  }

  /** Opening a part after a closed one keeps the invariants of the builder. */
  lemma OpenPartPreserves(parts: seq<Part>, cap: int)
    requires NumberedFromOne(parts) && ClosedPartsOverCap(parts, cap) && AllWithinCap(parts, cap)
    requires |parts| > 0 ==> |LastMembers(parts)| > 0 && Total(LastMembers(parts)) > cap
    ensures NumberedFromOne(parts + [Part(PartName(|parts| + 1), [])])
    ensures ClosedPartsOverCap(parts + [Part(PartName(|parts| + 1), [])], cap)
    ensures AllWithinCap(parts + [Part(PartName(|parts| + 1), [])], cap)
    ensures Flatten(parts + [Part(PartName(|parts| + 1), [])]) == Flatten(parts)
  {
    var newPart := Part(PartName(|parts| + 1), []);
    var parts' := parts + [newPart];
    assert parts'[..|parts|] == parts;
    assert forall k :: 0 <= k < |parts| ==> parts'[k] == parts[k];
    assert parts'[|parts|] == newPart;
    assert RunningSizesWithinCap(newPart, cap);
    FlattenAppendEmpty(parts, newPart);
  }

  lemma FlattenAppendEmpty(parts: seq<Part>, p: Part)
    requires |p.members| == 0
    ensures Flatten(parts + [p]) == Flatten(parts)
  {
    assert (parts + [p])[..|parts|] == parts;
  }

  /** Writing `b` into a part whose running size is within the cap keeps every
      earlier running size within the cap. */
  lemma GrowWithinCap(last: Part, cap: int, b: Archive)
    requires RunningSizesWithinCap(last, cap)
    requires |last.members| > 0 ==> Total(last.members) <= cap
    ensures RunningSizesWithinCap(Part(last.name, last.members + [b]), cap)
  {
    var grown := last.members + [b];
    forall j | 1 <= j < |grown|
      ensures Total(grown[..j]) <= cap
    {
      if j < |last.members| {
        assert grown[..j] == last.members[..j];
      } else {
        assert grown[..j] == last.members;
      }
    }
  }

  /** Replacing the last part by one with `b` appended appends `b` to what was written. */
  lemma FlattenGrowLast(parts: seq<Part>, b: Archive, parts': seq<Part>)
    requires |parts| > 0
    requires parts' == parts[..|parts| - 1] + [Part(parts[|parts| - 1].name, LastMembers(parts) + [b])]
    ensures Flatten(parts') == Flatten(parts) + [b]
  {
    var i := |parts| - 1;
    assert parts'[..i] == parts[..i];
    assert parts == parts[..i] + [parts[i]];
    assert Flatten(parts) == Flatten(parts[..i]) + parts[i].members;
  }

  /** Writing `b` into the open last part keeps the invariants of the builder. */
  lemma WritePreserves(parts: seq<Part>, cap: int, b: Archive, parts': seq<Part>)
    requires |parts| > 0
    requires NumberedFromOne(parts) && ClosedPartsOverCap(parts, cap) && AllWithinCap(parts, cap)
    requires |LastMembers(parts)| > 0 ==> Total(LastMembers(parts)) <= cap
    requires parts' == parts[..|parts| - 1] + [Part(parts[|parts| - 1].name, LastMembers(parts) + [b])]
    ensures NumberedFromOne(parts') && ClosedPartsOverCap(parts', cap) && AllWithinCap(parts', cap)
    ensures Flatten(parts') == Flatten(parts) + [b]
    ensures |parts'| == |parts| && LastMembers(parts') == LastMembers(parts) + [b]
    ensures Total(LastMembers(parts')) == Total(LastMembers(parts)) + b.size
  {
    var i := |parts| - 1;
    GrowWithinCap(parts[i], cap, b);
    TotalAppend(parts[i].members, b);
    FlattenGrowLast(parts, b, parts');
    assert forall k :: 0 <= k < i ==> parts'[k] == parts[k];
  }

  /** Handling an absent archive: a part may be opened, nothing is written. */
  lemma SkipPreserves(st: Builder, cap: int, done: seq<Archive>, b: Archive)
    requires Packing(st, cap, done) && !b.present
    ensures Packing(Step(st, b, cap), cap, done + [b])
  {
    assert Present(done + [b]) == Present(done);
    if !st.open {
      OpenPartPreserves(st.parts, cap);
    }
  }

  /** Handling a present archive: a part may be opened, then `b` is written into it. */
  lemma PutPreserves(st: Builder, cap: int, done: seq<Archive>, b: Archive)
    requires Packing(st, cap, done) && b.present
    ensures Packing(Step(st, b, cap), cap, done + [b])
  {
    assert Present(done + [b]) == Present(done) + [b];
    var withPart := if st.open then st else Builder(st.parts + [Part(PartName(|st.parts| + 1), [])], true, 0);
    if !st.open {
      OpenPartPreserves(st.parts, cap);
    }
    var i := |withPart.parts| - 1;
    var parts' := withPart.parts[..i] + [Part(withPart.parts[i].name, withPart.parts[i].members + [b])];
    WritePreserves(withPart.parts, cap, b, parts');
  }

  lemma StepPreserves(st: Builder, cap: int, done: seq<Archive>, b: Archive)
    requires Packing(st, cap, done)
    ensures Packing(Step(st, b, cap), cap, done + [b])
  {
    if b.present {
      PutPreserves(st, cap, done, b);
    } else {
      SkipPreserves(st, cap, done, b);
    }
  }

  /** Once every title is handled, the packing invariant gives the builder's result. */
  lemma PackingFinal(st: Builder, cap: int, books: seq<Archive>)
    requires Packing(st, cap, books)
    ensures |st.parts| == 0 <==> |books| == 0
    ensures forall k :: 0 <= k < |st.parts| ==> st.parts[k].name == PartName(k + 1)
    ensures Flatten(st.parts) == Present(books)
    ensures forall k :: 0 <= k < |st.parts| - 1 ==> |st.parts[k].members| > 0 && Total(st.parts[k].members) > cap
    ensures forall k :: 0 <= k < |st.parts| ==> RunningSizesWithinCap(st.parts[k], cap)
    ensures |books| > 0 && |st.parts| > 0 && |LastMembers(st.parts)| == 0 ==> !books[|books| - 1].present
    ensures |books| > 0 && |st.parts| > 0 && |LastMembers(st.parts)| > 0 && !books[|books| - 1].present ==>
              Total(LastMembers(st.parts)) <= cap
  {
  }

  /** Packs the build list into parts. A new part is opened when none is open; a
      missing archive is skipped (the open part stays open); after each write the
      part is closed once its running compressed size exceeds `cap`. */
  method BuildSplitArchive(books: seq<Archive>, cap: int) returns (parts: seq<Part>)
    ensures |parts| == 0 <==> |books| == 0
    ensures forall k :: 0 <= k < |parts| ==> parts[k].name == PartName(k + 1)
    ensures Flatten(parts) == Present(books)
    ensures forall k :: 0 <= k < |parts| - 1 ==> |parts[k].members| > 0 && Total(parts[k].members) > cap
    ensures forall k :: 0 <= k < |parts| ==> RunningSizesWithinCap(parts[k], cap)
    ensures |books| > 0 && |parts| > 0 && |parts[|parts| - 1].members| == 0 ==> !books[|books| - 1].present
    ensures |books| > 0 && |parts| > 0 && |parts[|parts| - 1].members| > 0 && !books[|books| - 1].present ==>
              Total(parts[|parts| - 1].members) <= cap
  {
    var st := Builder([], false, 0);
    var n := 0;
    while n < |books|
      invariant n <= |books|
      invariant Packing(st, cap, books[..n])
    {
      StepPreserves(st, cap, books[..n], books[n]);
      assert books[..n + 1] == books[..n] + [books[n]];
      st := Step(st, books[n], cap);
      n := n + 1;
    }
    assert books[..n] == books;
    PackingFinal(st, cap, books);
    parts := st.parts;
  }

  /** An archive larger than the cap is never dropped and always ends its part:
      nothing is written after it into the same part. */
  lemma OversizedArchiveEndsItsPart(p: Part, cap: int, j: nat)
    requires RunningSizesWithinCap(p, cap)
    requires j < |p.members| && p.members[j].size > cap
    ensures j == |p.members| - 1
  {
    assert p.members[..j + 1] == p.members[..j] + [p.members[j]];
    TotalAppend(p.members[..j], p.members[j]);
  }

  function Concat<T>(chunks: seq<seq<T>>): seq<T> {
    if |chunks| == 0 then [] else chunks[0] + Concat(chunks[1..])
  }

  lemma {:induction false} ConcatAppend<T>(a: seq<seq<T>>, b: seq<seq<T>>)
    ensures Concat(a + b) == Concat(a) + Concat(b)
  {
    if |a| > 0 {
      assert (a + b)[1..] == a[1..] + b;
      ConcatAppend(a[1..], b);
    } else {
      assert a + b == b;
    }
  }

  /** The Python slice `l[lo:hi]` for 0 <= lo, with the upper bound clamped. */
  function Slice<T>(l: seq<T>, lo: nat, hi: nat): (r: seq<T>)
    ensures |r| <= |l|
  {
    if lo >= |l| then [] else if hi <= lo then [] else l[lo..if hi <= |l| then hi else |l|]
  }

  /** `iter_chunks` from position `loc`: yields `l[loc:loc + size]` while `loc < len(l)`. */
  function IterChunksFrom<T>(l: seq<T>, loc: nat, size: nat): (chunks: seq<seq<T>>)
    requires size > 0
    ensures |chunks| == 0 <==> loc >= |l|
    ensures loc < |l| ==> (|chunks| - 1) * size < |l| - loc <= |chunks| * size
    decreases |l| - loc
  {
    if loc < |l| then
      var rest := IterChunksFrom(l, loc + size, size);
      assert (|rest| + 1) * size == |rest| * size + size;
      [Slice(l, loc, loc + size)] + rest
    else []
  }

  /** `iter_chunks(l, size)`: as many batches as it takes to hold the list with
      `size` items per batch, and no more. The generator never ends for a size of
      zero or less on a non-empty list, so that is excluded. */
  function IterChunks<T>(l: seq<T>, size: int): (chunks: seq<seq<T>>)
    requires size > 0 || |l| == 0
    ensures |chunks| == 0 <==> |l| == 0
    ensures |l| > 0 ==> (|chunks| - 1) * size < |l| <= |chunks| * size
  {
    if |l| == 0 then [] else IterChunksFrom(l, 0, size)
  }

  lemma {:induction false} IterChunksFromShape<T>(l: seq<T>, loc: nat, size: nat)
    requires size > 0 && loc <= |l|
    ensures Concat(IterChunksFrom(l, loc, size)) == l[loc..]
    ensures forall i :: 0 <= i < |IterChunksFrom(l, loc, size)| ==>
              0 < |IterChunksFrom(l, loc, size)[i]| <= size
    ensures forall i :: 0 <= i < |IterChunksFrom(l, loc, size)| - 1 ==>
              |IterChunksFrom(l, loc, size)[i]| == size
    decreases |l| - loc
  {
    var r := IterChunksFrom(l, loc, size);
    if loc < |l| {
      if loc + size <= |l| {
        IterChunksFromShape(l, loc + size, size);
        assert l[loc..] == l[loc..loc + size] + l[loc + size..];
      } else {
        assert IterChunksFrom(l, loc + size, size) == [];
      }
      assert r[1..] == IterChunksFrom(l, loc + size, size);
    }
  }

  /** The batches cover the list exactly, in order; every batch is non-empty and
      holds at most `size` items; all batches but the last hold exactly `size`. */
  lemma IterChunksCover<T>(l: seq<T>, size: int)
    requires size > 0
    ensures Concat(IterChunks(l, size)) == l
    ensures forall i :: 0 <= i < |IterChunks(l, size)| ==> 0 < |IterChunks(l, size)[i]| <= size
    ensures forall i :: 0 <= i < |IterChunks(l, size)| - 1 ==> |IterChunks(l, size)[i]| == size
  {
    if |l| > 0 {
      IterChunksFromShape(l, 0, size);
    }
  }

  /** The purge batches of the cache invalidator: `iter_chunks(files, 25)`. */
  function PurgeBatches(files: seq<string>): (batches: seq<seq<string>>)
    ensures Concat(batches) == files
    ensures forall i :: 0 <= i < |batches| ==> 0 < |batches[i]| <= 25
  {
    IterChunksCover(files, 25);
    IterChunks(files, 25)
  }

  /** Python's `int(a / b)` for a >= 0: true division truncated toward zero. */
  function TruncDiv(a: nat, b: int): int
    requires b != 0
  {
    if b > 0 then a / b else -(a / -b)
  }

  /** `split_list(l, size)`: `int(len(l) / size)` full slices of `size`, then the
      non-empty remainder. A negative size yields no full slice and the remainder
      past the last multiple of `-size`. */
  function SplitList<T>(l: seq<T>, size: int): (chunks: seq<seq<T>>)
    requires size != 0
    ensures forall i :: 0 <= i < |chunks| ==> |chunks[i]| > 0
    ensures size < 0 ==> chunks == if |l| % -size == 0 then [] else [l[|l| - |l| % -size..]]
  {
    var start := SplitStart(|l|, size);
    var whole := if size > 0 then FullSlices(l, |l| / size, size) else [];
    var lastBit := Slice(l, start, |l|);
    assert size < 0 ==> whole == [] && lastBit == if |l| % -size == 0 then [] else l[start..];
    whole + (if |lastBit| > 0 then [lastBit] else [])
  }

  /** `chunks*size` in `split_list`, where the last slice starts. */
  function SplitStart(n: nat, size: int): (start: nat)
    requires size != 0
    ensures start == TruncDiv(n, size) * size
    ensures start <= n
    ensures size > 0 ==> start == (n / size) * size
    ensures size < 0 ==> start == n - n % -size
  {
    if size > 0 then
      DivBounds(n, size);
      (n / size) * size
    else
      NegativeSplitStart(n, size);
      TruncDiv(n, size) * size
  }

  lemma NegativeSplitStart(n: nat, size: int)
    requires size < 0
    ensures TruncDiv(n, size) * size == n - n % -size
  {
    var m := -size;
    assert TruncDiv(n, size) * size == (n / m) * m;
  }

  /** `[l[i*size:(i+1)*size] for i in range(q)]`. */
  function FullSlices<T>(l: seq<T>, q: nat, size: nat): (r: seq<seq<T>>)
    requires size > 0 && q * size <= |l|
    ensures |r| == q
    ensures forall i :: 0 <= i < q ==> |r[i]| == size
    ensures Concat(r) == l[..q * size]
  {
    if q == 0 then []
    else
      var r := FullSlices(l, q - 1, size) + [l[(q - 1) * size..q * size]];
      ConcatAppend(FullSlices(l, q - 1, size), [l[(q - 1) * size..q * size]]);
      assert l[..q * size] == l[..(q - 1) * size] + l[(q - 1) * size..q * size];
      r
  }

  lemma DivBounds(n: nat, d: nat)
    requires d > 0
    ensures (n / d) * d <= n < (n / d) * d + d
  {
  }

  /** For a positive size, `split_list` batches like `iter_chunks`. */
  lemma SplitListShape<T>(l: seq<T>, size: int)
    requires size > 0
    ensures Concat(SplitList(l, size)) == l
    ensures forall i :: 0 <= i < |SplitList(l, size)| ==> 0 < |SplitList(l, size)[i]| <= size
    ensures forall i :: 0 <= i < |SplitList(l, size)| - 1 ==> |SplitList(l, size)[i]| == size
  {
    var q := |l| / size;
    DivBounds(|l|, size);
    var whole := FullSlices(l, q, size);
    var rest := Slice(l, q * size, |l|);
    var tail := if |rest| > 0 then [rest] else [];
    assert SplitList(l, size) == whole + tail;
    ConcatAppend(whole, tail);
    assert rest == l[q * size..];
    assert l == l[..q * size] + l[q * size..];
    assert Concat(tail) == rest;
  }

  /** For a positive size, `split_list` and `iter_chunks` are the same batcher. */
  lemma SplitListIsIterChunks<T>(l: seq<T>, size: int)
    requires size > 0
    ensures SplitList(l, size) == IterChunks(l, size)
  {
    IterChunksCover(l, size);
    SplitListShape(l, size);
    BatchesUnique(SplitList(l, size), IterChunks(l, size), l, size);
  }

  lemma ConcatFirst<T>(a: seq<seq<T>>)
    ensures |Concat(a)| >= (if |a| > 0 then |a[0]| else 0)
  {
  }

  /** In such a batching the first batch is as long as the cap allows. */
  lemma FirstBatchLength<T>(a: seq<seq<T>>, l: seq<T>, size: nat)
    requires size > 0 && |a| > 0 && Concat(a) == l
    requires forall i :: 0 <= i < |a| ==> 0 < |a[i]| <= size
    requires forall i :: 0 <= i < |a| - 1 ==> |a[i]| == size
    ensures |a[0]| == if |l| <= size then |l| else size
  {
    if |a| == 1 {
      assert Concat(a[1..]) == [];
    } else {
      ConcatFirst(a[1..]);
    }
  }

  /** Two batchings of the same list, both with all-but-last batches of exactly
      `size` and every batch non-empty and at most `size`, coincide. */
  lemma {:induction false} BatchesUnique<T>(a: seq<seq<T>>, b: seq<seq<T>>, l: seq<T>, size: nat)
    requires size > 0
    requires Concat(a) == l && Concat(b) == l
    requires forall i :: 0 <= i < |a| ==> 0 < |a[i]| <= size
    requires forall i :: 0 <= i < |a| - 1 ==> |a[i]| == size
    requires forall i :: 0 <= i < |b| ==> 0 < |b[i]| <= size
    requires forall i :: 0 <= i < |b| - 1 ==> |b[i]| == size
    ensures a == b
    decreases |l|
  {
    ConcatFirst(a);
    ConcatFirst(b);
    if |l| > 0 {
      FirstBatchLength(a, l, size);
      FirstBatchLength(b, l, size);
      assert a[0] == l[..|a[0]|] == b[0];
      assert Concat(a[1..]) == l[|a[0]|..] == Concat(b[1..]);
      BatchesUnique(a[1..], b[1..], l[|a[0]|..], size);
      assert a == [a[0]] + a[1..];
      assert b == [b[0]] + b[1..];
    }
  }

  /** An entry of the bundle directory: its name and whether it is a directory. */
  datatype BundleEntry = BundleEntry(name: string, isDir: bool)

  /** What an eviction pass leaves behind, and whether it stopped on an error. */
  datatype Eviction = Eviction(remaining: set<string>, failed: bool)

  /** The non-package entries, in listing order. */
  function NonPackage(entries: seq<BundleEntry>, packages: set<string>): (bundles: seq<BundleEntry>)
    ensures forall e :: e in bundles <==> e in entries && e.name !in packages
  {
    if |entries| == 0 then []
    else (if entries[0].name in packages then [] else [entries[0]]) + NonPackage(entries[1..], packages)
  }

  /** `rmtree` removes directories in order; on a plain file it raises
      NotADirectoryError, which is not caught, so that entry and every later one
      survive. Returns the index of the first plain file (or the length). */
  function FirstPlainFile(bundles: seq<BundleEntry>): (k: nat)
    ensures k <= |bundles|
    ensures forall i :: 0 <= i < k ==> bundles[i].isDir
    ensures k < |bundles| ==> !bundles[k].isDir
  {
    if |bundles| == 0 then 0
    else if !bundles[0].isDir then 0
    else 1 + FirstPlainFile(bundles[1..])
  }

  function Names(entries: seq<BundleEntry>): set<string> {
    set e | e in entries :: e.name
  }

  /** `clear_old_bundles(max_files)`: bundles are the entries not named after a
      package; when there are fewer than `max_files` of them nothing happens,
      otherwise every one of them is removed (no recency ranking). */
  function ClearOldBundles(entries: seq<BundleEntry>, packages: set<string>, maxFiles: int): (ev: Eviction)
    ensures Names(entries) * packages <= ev.remaining <= Names(entries)
    ensures |NonPackage(entries, packages)| < maxFiles ==> ev == Eviction(Names(entries), false)
    ensures ev.failed <==>
              (|NonPackage(entries, packages)| >= maxFiles &&
               exists e :: e in entries && e.name !in packages && !e.isDir)
    ensures |NonPackage(entries, packages)| >= maxFiles && !ev.failed ==>
              ev.remaining == Names(entries) * packages
  {
    var bundles := NonPackage(entries, packages);
    if |bundles| < maxFiles then Eviction(Names(entries), false)
    else
      var k := FirstPlainFile(bundles);
      var survivors := Names(bundles[k..]);
      assert Names(bundles) <= Names(entries);
      assert k < |bundles| ==> bundles[k] in bundles[k..];
      Eviction(Names(entries) * packages + survivors, k < |bundles|)
  }

  /** The disk-full cleanup calls `clear_old_bundles(max_files=0)`: unless a plain
      file stops it, every non-package bundle is removed. */
  lemma ForcedEvictionRemovesAllBundles(entries: seq<BundleEntry>, packages: set<string>, name: string)
    requires forall e :: e in entries ==> e.isDir
    requires name !in packages
    ensures name !in ClearOldBundles(entries, packages, 0).remaining
  {
  }

  /** The entries whose names are in `names`, in listing order. */
  function Keep(entries: seq<BundleEntry>, names: set<string>): (kept: seq<BundleEntry>)
    ensures forall e :: e in kept <==> e in entries && e.name in names
  {
    if |entries| == 0 then []
    else (if entries[0].name in names then [entries[0]] else []) + Keep(entries[1..], names)
  }

  lemma {:induction false} NonPackageOfKeep(entries: seq<BundleEntry>, names: set<string>, packages: set<string>)
    ensures |NonPackage(Keep(entries, names), packages)| <= |NonPackage(entries, packages)|
  {
    if |entries| > 0 {
      NonPackageOfKeep(entries[1..], names, packages);
      var k := Keep(entries, names);
      if entries[0].name in names {
        assert k[1..] == Keep(entries[1..], names);
      } else {
        assert k == Keep(entries[1..], names);
      }
    }
  }

  lemma NonPackageOfPackagesOnly(entries: seq<BundleEntry>, packages: set<string>)
    requires forall e :: e in entries ==> e.name in packages
    ensures NonPackage(entries, packages) == []
  {
  }

  /** A second pass over what a complete pass left behind removes nothing. */
  lemma ClearOldBundlesIdempotent(entries: seq<BundleEntry>, packages: set<string>, maxFiles: int)
    requires forall e :: e in entries ==> e.isDir
    ensures var after := Keep(entries, ClearOldBundles(entries, packages, maxFiles).remaining);
      ClearOldBundles(after, packages, maxFiles).remaining == Names(after)
  {
    var ev := ClearOldBundles(entries, packages, maxFiles);
    var after := Keep(entries, ev.remaining);
    NonPackageOfKeep(entries, ev.remaining, packages);
    if |NonPackage(entries, packages)| >= maxFiles {
      assert forall e :: e in after ==> e.name in packages;
      NonPackageOfPackagesOnly(after, packages);
    }
  }
}
