/** Change detection and the `last_updated.json` snapshot: which books changed
    since their recorded timestamp, which exported books are recorded, and how a
    snapshot is rewritten or overlaid. Timestamps are integers ordered like the
    ISO strings the snapshot stores. */
module SyncState {
  import opened Results
  import Exporter

  // ---------------------------------------------------------------------------
  // Change detection

  /** A history record: when it happened, the text reference it edited, the
      references of the links before and after a link edit, and the index title
      of an index edit. */
  datatype HistoryEvent = HistoryEvent(
    date: int,
    ref: Option<string>,
    oldRefs: seq<string>,
    newRefs: seq<string>,
    title: Option<string>)

  /** The four history queries of `has_updated`. */
  datatype Query = RefQuery | OldRefsQuery | NewRefsQuery | TitleQuery

  /** `{'$or': [{field: {'$regex': p}} for p in patterns]}` on one string;
      `matches(p, s)` is the regular-expression search. */
  predicate AnyPatternMatches(patterns: seq<string>, matches: (string, string) -> bool, s: string) {
    exists i :: 0 <= i < |patterns| && matches(patterns[i], s)
  }

  /** A regular-expression condition on an array field holds when it holds for
      one of its elements. */
  predicate SomeRefMatches(patterns: seq<string>, matches: (string, string) -> bool, refs: seq<string>) {
    exists j :: 0 <= j < |refs| && AnyPatternMatches(patterns, matches, refs[j])
  }

  /** Does event `e` satisfy query `q` (apart from its date condition)? */
  predicate Hits(q: Query, e: HistoryEvent, title: string, patterns: seq<string>, matches: (string, string) -> bool) {
    match q
    case RefQuery => e.ref.Some? && AnyPatternMatches(patterns, matches, e.ref.value)
    case OldRefsQuery => SomeRefMatches(patterns, matches, e.oldRefs)
    case NewRefsQuery => SomeRefMatches(patterns, matches, e.newRefs)
    case TitleQuery => e.title == Some(title)
  }

  /** `HistorySet(query).count()` with the date condition `$gt: last`. */
  function Count(q: Query, events: seq<HistoryEvent>, last: int, title: string,
                 patterns: seq<string>, matches: (string, string) -> bool): (n: nat)
    ensures n <= |events|
    ensures n > 0 ==> exists i :: 0 <= i < |events| && events[i].date > last
  {
    if |events| == 0 then 0
    else
      var e := events[|events| - 1];
      Count(q, events[..|events| - 1], last, title, patterns, matches) +
      (if e.date > last && Hits(q, e, title, patterns, matches) then 1 else 0)
  }

  /** A count is positive exactly when some event after `last` satisfies the query. */
  lemma {:induction false} CountPositive(q: Query, events: seq<HistoryEvent>, last: int, title: string,
                                         patterns: seq<string>, matches: (string, string) -> bool)
    ensures Count(q, events, last, title, patterns, matches) > 0 <==>
            exists i :: 0 <= i < |events| && events[i].date > last && Hits(q, events[i], title, patterns, matches)
  {
    if |events| > 0 {
      var n := |events| - 1;
      CountPositive(q, events[..n], last, title, patterns, matches);
      assert forall i :: 0 <= i < n ==> events[..n][i] == events[i];
    }
  }

  /** `has_updated(title, last)`: `patterns` is the title's reference patterns,
      `None` when building them raises InputError (the answer is then False). The
      source hands the patterns to an `$or`, which the database refuses empty. */
  function HasUpdated(title: string, last: int, patterns: Option<seq<string>>,
                      events: seq<HistoryEvent>, matches: (string, string) -> bool): (r: bool)
    requires patterns.Some? ==> |patterns.value| > 0
    ensures r ==> patterns.Some? && exists i :: 0 <= i < |events| && events[i].date > last
  {
    match patterns
    case None => false
    case Some(ps) =>
      if Count(RefQuery, events, last, title, ps, matches) > 0 then true
      else if Count(OldRefsQuery, events, last, title, ps, matches) > 0 then true
      else if Count(NewRefsQuery, events, last, title, ps, matches) > 0 then true
      else Count(TitleQuery, events, last, title, ps, matches) > 0
  }

  /** The event concerns the title through any of the four queries. */
  predicate Relevant(e: HistoryEvent, title: string, patterns: seq<string>, matches: (string, string) -> bool) {
    exists q :: Hits(q, e, title, patterns, matches)
  }

  /** A title has been updated exactly when some relevant event is dated strictly
      after its recorded timestamp. */
  lemma HasUpdatedIff(title: string, last: int, patterns: Option<seq<string>>,
                      events: seq<HistoryEvent>, matches: (string, string) -> bool)
    requires patterns.Some? ==> |patterns.value| > 0
    ensures HasUpdated(title, last, patterns, events, matches) <==>
            patterns.Some? &&
            exists i :: 0 <= i < |events| && events[i].date > last && Relevant(events[i], title, patterns.value, matches)
  {
    if patterns.Some? {
      var ps := patterns.value;
      CountPositive(RefQuery, events, last, title, ps, matches);
      CountPositive(OldRefsQuery, events, last, title, ps, matches);
      CountPositive(NewRefsQuery, events, last, title, ps, matches);
      CountPositive(TitleQuery, events, last, title, ps, matches);
      if exists i :: 0 <= i < |events| && events[i].date > last && Relevant(events[i], title, ps, matches) {
        var i :| 0 <= i < |events| && events[i].date > last && Relevant(events[i], title, ps, matches);
        var q :| Hits(q, events[i], title, ps, matches);
        assert Count(q, events, last, title, ps, matches) > 0;
      }
    }
  }

  /** Events at or before the recorded timestamp (`$gt`, not `$gte`) never make a
      title count as updated. */
  lemma HasUpdatedIgnoresOlderEvents(title: string, last: int, patterns: Option<seq<string>>,
                                     events: seq<HistoryEvent>, older: seq<HistoryEvent>,
                                     matches: (string, string) -> bool)
    requires patterns.Some? ==> |patterns.value| > 0
    requires forall i :: 0 <= i < |older| ==> older[i].date <= last
    ensures HasUpdated(title, last, patterns, events + older, matches) == HasUpdated(title, last, patterns, events, matches)
  {
    HasUpdatedIff(title, last, patterns, events + older, matches);
    HasUpdatedIff(title, last, patterns, events, matches);
    if patterns.Some? && HasUpdated(title, last, patterns, events + older, matches) {
      var i :| 0 <= i < |events + older| && (events + older)[i].date > last &&
               Relevant((events + older)[i], title, patterns.value, matches);
      assert i < |events|;
      assert (events + older)[i] == events[i];
    }
    if patterns.Some? && HasUpdated(title, last, patterns, events, matches) {
      var i :| 0 <= i < |events| && events[i].date > last && Relevant(events[i], title, patterns.value, matches);
      assert (events + older)[i] == events[i];
    }
  }

  /** An earlier recorded timestamp can only see more updates. */
  lemma HasUpdatedAntitone(title: string, earlier: int, last: int, patterns: Option<seq<string>>,
                           events: seq<HistoryEvent>, matches: (string, string) -> bool)
    requires patterns.Some? ==> |patterns.value| > 0
    requires earlier <= last
    requires HasUpdated(title, last, patterns, events, matches)
    ensures HasUpdated(title, earlier, patterns, events, matches)
  {
    HasUpdatedIff(title, last, patterns, events, matches);
    HasUpdatedIff(title, earlier, patterns, events, matches);
  }

  // ---------------------------------------------------------------------------
  // The snapshot

  /** `last_updated.json`: schema version, comment, and the title→timestamp map. */
  datatype Snapshot = Snapshot(schemaVersion: string, comment: string, titles: map<string, int>)

  /** `updated_books_list`: no snapshot gives `None`; otherwise the recorded
      titles with a relevant event after their timestamp. `patternsOf` gives each
      title's reference patterns. */
  function UpdatedBooks(snap: Option<Snapshot>, patternsOf: string -> Option<seq<string>>,
                        events: seq<HistoryEvent>, matches: (string, string) -> bool): (r: Option<set<string>>)
    requires forall t :: patternsOf(t).Some? ==> |patternsOf(t).value| > 0
    ensures r.None? <==> snap.None?
    ensures r.Some? ==> forall t :: t in r.value <==>
              t in snap.value.titles && patternsOf(t).Some? &&
              exists i :: 0 <= i < |events| && events[i].date > snap.value.titles[t] &&
                          Relevant(events[i], t, patternsOf(t).value, matches)
  {
    match snap
    case None => None
    case Some(s) =>
      var r := set t | t in s.titles && HasUpdated(t, s.titles[t], patternsOf(t), events, matches);
      assert forall t :: t in s.titles ==>
        (HasUpdated(t, s.titles[t], patternsOf(t), events, matches) <==>
         patternsOf(t).Some? &&
         exists i :: 0 <= i < |events| && events[i].date > s.titles[t] && Relevant(events[i], t, patternsOf(t).value, matches)) by {
        forall t | t in s.titles {
          HasUpdatedIff(t, s.titles[t], patternsOf(t), events, matches);
        }
      }
      Some(r)
  }

  function EndsWith(s: string, suffix: string): bool {
    |suffix| <= |s| && s[|s| - |suffix|..] == suffix
  }

  /** The part of `s` after its last `/`. */
  function AfterLastSlash(s: string): (r: string)
    ensures '/' !in r
    ensures |r| <= |s| && r == s[|s| - |r|..]
  {
    if |s| == 0 then ""
    else if s[|s| - 1] == '/' then ""
    else AfterLastSlash(s[..|s| - 1]) + [s[|s| - 1]]
  }

  /** `re.search(r'([^/]+)\.zip$', name).group(1)`, `None` when nothing matches. */
  function ZipStem(name: string): (r: Option<string>)
    ensures r.Some? ==> |r.value| > 0 && '/' !in r.value && EndsWith(name, r.value + ".zip")
  {
    if EndsWith(name, ".zip") && |AfterLastSlash(name[..|name| - 4])| > 0 then
      var stem := AfterLastSlash(name[..|name| - 4]);
      assert name[|name| - |stem + ".zip"|..] == name[..|name| - 4][|name| - 4 - |stem|..] + ".zip";
      Some(stem)
    else None
  }

  /** The archive of a title is recognised as that title again. */
  lemma ZipStemRoundTrip(t: string)
    requires |t| > 0 && '/' !in t
    ensures ZipStem(t + ".zip") == Some(t)
  {
    var name := t + ".zip";
    assert name[..|name| - 4] == t;
    assert name[|name| - 4..] == ".zip";
    AfterLastSlashOfSlashFree(t);
  }

  lemma {:induction false} AfterLastSlashOfSlashFree(s: string)
    requires '/' !in s
    ensures AfterLastSlash(s) == s
  {
    if |s| > 0 {
      assert '/' !in s[..|s| - 1];
      AfterLastSlashOfSlashFree(s[..|s| - 1]);
      assert s[..|s| - 1] + [s[|s| - 1]] == s;
    }
  }

  /** The titles of all archives in the export directory (names ending in
      `zip`); a name the pattern does not match makes `.group` fail. */
  function TitlesOnDisk(dir: map<string, int>): (r: Result<set<string>>)
    ensures r.Success? <==> forall n :: n in dir && EndsWith(n, "zip") ==> ZipStem(n).Some?
    ensures r.Success? ==> forall n :: n in dir && EndsWith(n, "zip") ==> ZipStem(n).value in r.value
    ensures r.Success? ==> forall t :: t in r.value ==> exists n :: n in dir && ZipStem(n) == Some(t)
  {
    if forall n :: n in dir && EndsWith(n, "zip") ==> ZipStem(n).Some? then
      Success(set n | n in dir && EndsWith(n, "zip") :: ZipStem(n).value)
    else Failure(NoRegexMatch)
  }

  function ZipName(t: string): string {
    t + ".zip"
  }

  /** The modification time of each title's archive; `os.stat` of a missing
      archive fails. */
  function FreshTimes(names: set<string>, dir: map<string, int>): (r: Result<map<string, int>>)
    ensures r.Success? <==> forall t :: t in names ==> ZipName(t) in dir
    ensures r.Success? ==> r.value.Keys == names
    ensures r.Success? ==> forall t :: t in names ==> r.value[t] == dir[ZipName(t)]
  {
    if forall t :: t in names ==> ZipName(t) in dir then Success(map t | t in names :: dir[ZipName(t)])
    else Failure(FileNotFound)
  }

  /** The previous snapshot, or the default one when reading it raised IOError. */
  function BaseSnapshot(previous: Option<Snapshot>): Snapshot {
    previous.GetOr(Snapshot("0", "", map[]))
  }

  /** Timestamps for `names`: a fresh snapshot, or (with `update`) the previous
      one with these titles overlaid, schema version and comment replaced. */
  function Stamp(names: set<string>, update: bool, dir: map<string, int>, previous: Option<Snapshot>): (r: Result<Snapshot>)
    ensures r.Success? <==> forall t :: t in names ==> ZipName(t) in dir
    ensures r.Success? ==> r.value.schemaVersion == Exporter.SchemaVersion && r.value.comment == ""
    ensures r.Success? ==> forall t :: t in r.value.titles <==> t in names || (update && t in BaseSnapshot(previous).titles)
    ensures r.Success? ==> forall t :: t in names ==> r.value.titles[t] == dir[ZipName(t)]
    ensures r.Success? && update ==> forall t :: t in BaseSnapshot(previous).titles && t !in names ==>
              r.value.titles[t] == BaseSnapshot(previous).titles[t]
  {
    var stamped :- FreshTimes(names, dir);
    if update then Success(Snapshot(Exporter.SchemaVersion, "", BaseSnapshot(previous).titles + stamped))
    else Success(Snapshot(Exporter.SchemaVersion, "", stamped))
  }

  /** Stamping no title leaves the titles as they were (or empty, for a rewrite). */
  lemma StampNothing(update: bool, dir: map<string, int>, previous: Option<Snapshot>)
    ensures update ==> Stamp({}, update, dir, previous) == Success(Snapshot(Exporter.SchemaVersion, "", BaseSnapshot(previous).titles))
    ensures !update ==> Stamp({}, update, dir, previous) == Success(Snapshot(Exporter.SchemaVersion, "", map[]))
  {
    var none: set<string> := {};
    assert FreshTimes(none, dir) == Success(map[]);
    assert BaseSnapshot(previous).titles + map[] == BaseSnapshot(previous).titles;
  }

  function AsSet(titles: seq<string>): (s: set<string>)
    ensures forall t :: t in s <==> t in titles
  {
    set i | 0 <= i < |titles| :: titles[i]
  }

  /** Timestamps for exactly the given titles: what `write_last_updated` does
      for a non-empty list, and, for an empty one, records nothing new. */
  function WriteTimestamps(titles: seq<string>, update: bool, dir: map<string, int>, previous: Option<Snapshot>): (r: Result<Snapshot>)
    ensures |titles| == 0 && update ==> r == Success(Snapshot(Exporter.SchemaVersion, "", BaseSnapshot(previous).titles))
    ensures |titles| == 0 && !update ==> r == Success(Snapshot(Exporter.SchemaVersion, "", map[]))
  {
    if |titles| == 0 then
      assert AsSet(titles) == {};
      StampNothing(update, dir, previous);
      Stamp(AsSet(titles), update, dir, previous)
    else Stamp(AsSet(titles), update, dir, previous)
  }

  /** `write_last_updated(titles, update)`. An empty list means every archive in
      the export directory. */
  function WriteLastUpdated(titles: seq<string>, update: bool, dir: map<string, int>, previous: Option<Snapshot>): (r: Result<Snapshot>)
    ensures |titles| > 0 ==> r == WriteTimestamps(titles, update, dir, previous)
    ensures |titles| == 0 && r.Success? ==> TitlesOnDisk(dir).Success?
    ensures |titles| == 0 && r.Success? ==>
              (forall t :: t in r.value.titles <==> t in TitlesOnDisk(dir).value || (update && t in BaseSnapshot(previous).titles))
    ensures |titles| == 0 && r.Success? ==>
              (forall t :: t in TitlesOnDisk(dir).value ==> ZipName(t) in dir && r.value.titles[t] == dir[ZipName(t)])
  {
    var names :- if |titles| == 0 then TitlesOnDisk(dir) else Success(AsSet(titles));
    Stamp(names, update, dir, previous)
  }

  /** A non-empty list overlays exactly those titles: the others keep their previous
      timestamps, a missing snapshot file counts as an empty one. */
  lemma OverlayKeepsUntouched(titles: seq<string>, dir: map<string, int>, previous: Option<Snapshot>)
    requires |titles| > 0
    requires WriteLastUpdated(titles, true, dir, previous).Success?
    ensures var r := WriteLastUpdated(titles, true, dir, previous).value;
      && r.schemaVersion == Exporter.SchemaVersion && r.comment == ""
      && (forall t :: t in r.titles <==> t in titles || t in BaseSnapshot(previous).titles)
      && (forall t :: t in titles ==> r.titles[t] == dir[ZipName(t)])
      && (forall t :: t !in titles && t in BaseSnapshot(previous).titles ==> r.titles[t] == BaseSnapshot(previous).titles[t])
  {
  }

  // ---------------------------------------------------------------------------
  // Which exported books are recorded

  function Filter<T(!new)>(s: seq<T>, keep: T -> bool): (r: seq<T>)
    ensures |r| <= |s|
    ensures forall t :: t in r <==> t in s && keep(t)
  {
    if |s| == 0 then [] else (if keep(s[0]) then [s[0]] else []) + Filter(s[1..], keep)
  }

  lemma {:induction false} FilterAppend<T(!new)>(a: seq<T>, b: seq<T>, keep: T -> bool)
    ensures Filter(a + b, keep) == Filter(a, keep) + Filter(b, keep)
  {
    if |a| > 0 {
      assert (a + b)[1..] == a[1..] + b;
      FilterAppend(a[1..], b, keep);
    } else {
      assert a + b == b;
    }
  }

  /** Nothing survives a filter that rejects every element. */
  lemma {:induction false} FilterNone<T(!new)>(s: seq<T>, keep: T -> bool)
    requires forall t :: t in s ==> !keep(t)
    ensures Filter(s, keep) == []
  {
    if |s| > 0 {
      assert forall t :: t in s[1..] ==> t in s;
      FilterNone(s[1..], keep);
    }
  }

  /** Python's `list.remove(x)`: drops the first occurrence. */
  function RemoveFirst<T(==)>(s: seq<T>, x: T): seq<T> {
    if |s| == 0 then []
    else if s[0] == x then s[1..]
    else [s[0]] + RemoveFirst(s[1..], x)
  }

  lemma {:induction false} RemoveFirstAt<T>(a: seq<T>, x: T, b: seq<T>)
    requires x !in a
    ensures RemoveFirst(a + [x] + b, x) == a + b
  {
    if |a| == 0 {
      assert a + [x] + b == [x] + b;
    } else {
      assert (a + [x] + b)[1..] == a[1..] + [x] + b;
      RemoveFirstAt(a[1..], x, b);
      assert a + b == [a[0]] + (a[1..] + b);
    }
  }

  /** A book is kept in the list when it was skipped because its archive
      already exists, or when its export succeeded. */
  function KeptByExportTexts<T(==)>(skipExisting: bool, onDisk: set<T>, success: T -> bool): T -> bool {
    t => (skipExisting && t in onDisk) || success(t)
  }

  /** One backward step of `export_texts`: position `i` of the list still holds
      the `i`-th index, and removing it when it is not kept extends the filtered
      suffix by one. */
  lemma ExportTextsStep<T(!new)>(indexes: seq<T>, i: nat, keep: T -> bool)
    requires i < |indexes|
    requires forall a, b :: 0 <= a < b < |indexes| ==> indexes[a] != indexes[b]
    ensures (indexes[..i + 1] + Filter(indexes[i + 1..], keep))[i] == indexes[i]
    ensures keep(indexes[i]) ==>
              indexes[..i + 1] + Filter(indexes[i + 1..], keep) == indexes[..i] + Filter(indexes[i..], keep)
    ensures !keep(indexes[i]) ==>
              RemoveFirst(indexes[..i + 1] + Filter(indexes[i + 1..], keep), indexes[i]) == indexes[..i] + Filter(indexes[i..], keep)
  {
    var x := indexes[i];
    var rest := Filter(indexes[i + 1..], keep);
    assert indexes[..i + 1] == indexes[..i] + [x];
    assert indexes[i..][0] == x && indexes[i..][1..] == indexes[i + 1..];
    if !keep(x) {
      assert forall a :: 0 <= a < i ==> indexes[a] != x;
      assert x !in indexes[..i];
      RemoveFirstAt(indexes[..i], x, rest);
    }
  }

  /** A library index record, told apart from the others by its identity; its
      title and contents play no part in the loop below. */
  datatype IndexRecord = IndexRecord(id: nat)

  /** Reference definition: the records left in the list by `export_texts`, in
      library order. These are the ones skipped because their archive is on
      disk, and the ones that exported. */
  function KeptIndexes(indexes: seq<IndexRecord>, skip: bool, onDisk: set<IndexRecord>, success: IndexRecord -> bool)
    : (r: seq<IndexRecord>)
    ensures |r| <= |indexes|
    ensures forall t :: t in r <==> t in indexes && ((skip && t in onDisk) || success(t))
  {
    if |indexes| == 0 then []
    else
      (if (skip && indexes[0] in onDisk) || success(indexes[0]) then [indexes[0]] else []) +
      KeptIndexes(indexes[1..], skip, onDisk, success)
  }

  lemma {:induction false} KeptIndexesFilter(indexes: seq<IndexRecord>, skip: bool, onDisk: set<IndexRecord>,
                                             success: IndexRecord -> bool)
    ensures KeptIndexes(indexes, skip, onDisk, success) == Filter(indexes, KeptByExportTexts(skip, onDisk, success))
  {
    if |indexes| > 0 {
      KeptIndexesFilter(indexes[1..], skip, onDisk, success);
    }
  }

  /** The loop of `export_texts`: it walks the index list backwards and removes
      each book whose export failed. The index records are distinct. */
  method ExportTextsTitles(indexes: seq<IndexRecord>, skip: bool, onDisk: set<IndexRecord>, success: IndexRecord -> bool)
    returns (kept: seq<IndexRecord>)
    requires forall i, j :: 0 <= i < j < |indexes| ==> indexes[i] != indexes[j]
    ensures kept == KeptIndexes(indexes, skip, onDisk, success)
  {
    var keep := KeptByExportTexts(skip, onDisk, success);
    kept := indexes;
    var i := |indexes|;
    while i > 0
      invariant 0 <= i <= |indexes|
      invariant kept == indexes[..i] + Filter(indexes[i..], keep)
    {
      i := i - 1;
      ExportTextsStep(indexes, i, keep);
      var t := kept[i];
      // an archive already on disk is skipped when `skip` is set
      if !(skip && t in onDisk) && !success(t) {
        kept := RemoveFirst(kept, t);
      }
    }
    assert indexes[..0] + Filter(indexes[0..], keep) == Filter(indexes, keep);
    KeptIndexesFilter(indexes, skip, onDisk, success);
  }

  /** `get_index` for each requested title, skipping those that raise
      BookNameError, as the titles of the indexes found. */
  function Resolved(requested: seq<string>, resolve: string -> Option<string>): (r: seq<string>)
    ensures |r| <= |requested|
    ensures forall t :: t in r <==> exists i :: 0 <= i < |requested| && resolve(requested[i]) == Some(t)
  {
    if |requested| == 0 then []
    else
      (match resolve(requested[0]) case Some(t) => [t] case None => []) + Resolved(requested[1..], resolve)
  }

  /** One forward step of `export_updated`: removing the current title when its
      export failed extends the filtered prefix by one. */
  lemma ExportUpdatedStep(resolved: seq<string>, i: nat, success: string -> bool)
    requires i < |resolved|
    ensures success(resolved[i]) ==>
              Filter(resolved[..i], success) + resolved[i..] == Filter(resolved[..i + 1], success) + resolved[i + 1..]
    ensures !success(resolved[i]) ==>
              RemoveFirst(Filter(resolved[..i], success) + resolved[i..], resolved[i]) ==
              Filter(resolved[..i + 1], success) + resolved[i + 1..]
  {
    var t := resolved[i];
    var done := Filter(resolved[..i], success);
    FilterStep(resolved, i, success);
    assert resolved[i..] == [t] + resolved[i + 1..];
    assert done + resolved[i..] == done + [t] + resolved[i + 1..];
    if !success(t) {
      assert t !in done;
      RemoveFirstAt(done, t, resolved[i + 1..]);
    }
  }

  /** Filtering one more element extends the filtered prefix by that element
      exactly when it is kept. */
  lemma FilterStep(resolved: seq<string>, i: nat, success: string -> bool)
    requires i < |resolved|
    ensures Filter(resolved[..i + 1], success) ==
            Filter(resolved[..i], success) + (if success(resolved[i]) then [resolved[i]] else [])
  {
    var t := resolved[i];
    assert resolved[..i + 1] == resolved[..i] + [t];
    FilterAppend(resolved[..i], [t], success);
    assert [t][1..] == [];
  }

  /** The loop of `export_updated`: it walks the resolved indexes forward and
      removes the title of each one whose export failed. */
  method ExportUpdatedTitles(requested: seq<string>, resolve: string -> Option<string>, success: string -> bool)
    returns (kept: seq<string>)
    ensures kept == Filter(Resolved(requested, resolve), success)
  {
    var resolved := Resolved(requested, resolve);
    kept := resolved;
    var i := 0;
    while i < |resolved|
      invariant 0 <= i <= |resolved|
      invariant kept == Filter(resolved[..i], success) + resolved[i..]
    {
      ExportUpdatedStep(resolved, i, success);
      if !success(resolved[i]) {
        kept := RemoveFirst(kept, resolved[i]);
      }
      i := i + 1;
    }
    assert resolved[..|resolved|] == resolved;
  }

  // ---------------------------------------------------------------------------
  // The recorded snapshot after an export

  /** What `export_updated` writes: the previous snapshot overlaid with the
      books that exported, passed to `write_last_updated` as written. */
  function ExportUpdatedSnapshot(previous: Snapshot, kept: seq<string>, dir: map<string, int>): (r: Result<Snapshot>)
    ensures |kept| > 0 ==> r == ExportUpdatedSnapshotIntended(previous, kept, dir)
  {
    WriteLastUpdated(kept, true, dir, Some(previous))
  }

  /** The same step with an empty list meaning "no book exported": the listed
      books get their archives' times and every other recorded book keeps its
      timestamp. */
  function ExportUpdatedSnapshotIntended(previous: Snapshot, kept: seq<string>, dir: map<string, int>): (r: Result<Snapshot>)
    ensures |kept| == 0 ==> r == Success(Snapshot(Exporter.SchemaVersion, "", previous.titles))
    ensures r.Success? <==> forall t :: t in kept ==> ZipName(t) in dir
    ensures r.Success? ==> forall t :: t in kept ==> t in r.value.titles && r.value.titles[t] == dir[ZipName(t)]
    ensures r.Success? ==> forall t :: t !in kept ==>
              (t in r.value.titles <==> t in previous.titles) &&
              (t in previous.titles ==> r.value.titles[t] == previous.titles[t])
  {
    WriteTimestamps(kept, true, dir, Some(previous))
  }

  function NeverSucceeds(t: string): bool {
    false
  }

  lemma ZipNameEndsInZip(t: string)
    ensures EndsWith(ZipName(t), "zip")
  {
    var name := ZipName(t);
    assert name[|name| - 3..] == "zip";
  }

  /** A directory with a single archive lists that archive's stem. */
  lemma OneStem(dir: map<string, int>, name: string, t: string)
    requires dir.Keys == {name}
    requires EndsWith(name, "zip") && ZipStem(name) == Some(t)
    ensures TitlesOnDisk(dir) == Success({t})
  {
    assert forall n :: n in dir ==> n == name;
    var stems := set n | n in dir && EndsWith(n, "zip") :: ZipStem(n).value;
    assert t in stems;
    assert forall x :: x in stems ==> x == t;
    assert stems == {t};
  }

  /** An export directory holding one book's archive lists just that book. */
  lemma OneArchiveOnDisk(t: string, time: int)
    requires |t| > 0 && '/' !in t
    ensures TitlesOnDisk(map[ZipName(t) := time]) == Success({t})
  {
    var name := ZipName(t);
    var dir := map[name := time];
    ZipStemRoundTrip(t);
    ZipNameEndsInZip(t);
    assert dir.Keys == {name};
    OneStem(dir, name, t);
  }

  /** As written: when the only updated book fails to export, the list handed to
      `write_last_updated` is empty, so every archive on disk is re-stamped,
      including the failed book's archive, which `zip_last_text` rewrote (here at
      time 5). Its timestamp moves from 1 to 5, and edits dated between the two
      are never exported. */
  lemma AllFailedRefreshesFailedBook()
    ensures var previous := Snapshot(Exporter.SchemaVersion, "", map["Genesis" := 1]);
      var dir := map[ZipName("Genesis") := 5];
      var kept := Filter(["Genesis"], NeverSucceeds);
      && kept == []
      && ExportUpdatedSnapshot(previous, kept, dir).Success?
      && ExportUpdatedSnapshot(previous, kept, dir).value.titles["Genesis"] == 5
  {
    assert Filter(["Genesis"], NeverSucceeds) == [];
    GenesisRestamped();
  }

  lemma GenesisRestamped()
    ensures var r := WriteLastUpdated([], true, map[ZipName("Genesis") := 5],
                                      Some(Snapshot(Exporter.SchemaVersion, "", map["Genesis" := 1])));
      r.Success? && r.value.titles["Genesis"] == 5
  {
    var previous := Snapshot(Exporter.SchemaVersion, "", map["Genesis" := 1]);
    var dir := map[ZipName("Genesis") := 5];
    OneArchiveOnDisk("Genesis", 5);
    assert WriteLastUpdated([], true, dir, Some(previous)) == Stamp({"Genesis"}, true, dir, Some(previous));
  }

  /** As written, for any inputs: when no updated book exports, the list handed
      to `write_last_updated` is empty, so every archive in the export directory
      is stamped with its current time. This includes the archives of the books
      that failed, which `zip_last_text` has just rewritten. */
  lemma AllFailedRestampsEveryArchive(previous: Snapshot, requested: seq<string>, resolve: string -> Option<string>,
                                      success: string -> bool, dir: map<string, int>)
    requires forall t :: t in Resolved(requested, resolve) ==> !success(t)
    ensures Filter(Resolved(requested, resolve), success) == []
    ensures var r := ExportUpdatedSnapshot(previous, Filter(Resolved(requested, resolve), success), dir);
      r.Success? ==>
        && TitlesOnDisk(dir).Success?
        && forall t :: t in TitlesOnDisk(dir).value ==> ZipName(t) in dir && r.value.titles[t] == dir[ZipName(t)]
  {
    FilterNone(Resolved(requested, resolve), success);
  }

  /** Intended: a book whose export failed keeps its previous timestamp (or stays
      unrecorded), whatever the other books did; each exported book gets its
      archive's time. `zip_last_text` leaves an archive for every exported book. */
  lemma FailedBooksKeepTimestamps(previous: Snapshot, requested: seq<string>, resolve: string -> Option<string>,
                                  success: string -> bool, dir: map<string, int>)
    requires forall t :: t in Resolved(requested, resolve) && success(t) ==> ZipName(t) in dir
    ensures var r := ExportUpdatedSnapshotIntended(previous, Filter(Resolved(requested, resolve), success), dir);
      && r.Success?
      && (forall t :: !success(t) && t in previous.titles ==> t in r.value.titles && r.value.titles[t] == previous.titles[t])
      && (forall t :: !success(t) && t !in previous.titles ==> t !in r.value.titles)
      && (forall t :: success(t) && t in Resolved(requested, resolve) ==> r.value.titles[t] == dir[ZipName(t)])
  {
  }
}
