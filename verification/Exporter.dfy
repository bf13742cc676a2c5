/** The section exporter: reading a section out of each version's jagged text
    array, stripping inline markup, aligning segments to absolute positions with
    `None` gaps, replicating links over their anchor spans, and naming the version
    each aligned array belongs to. */
module Exporter {
  import opened Results

  // ---------------------------------------------------------------------------
  // Jagged text arrays

  /** A version's text: a string, or a list of nested arrays. */
  datatype Jagged = Leaf(text: string) | Node(children: seq<Jagged>)

  /** Python's bounds rule for `xs[i]` on a list of length `n`: negative indices
      count from the end, anything else out of range raises IndexError (`None`). */
  function PyIndex(n: nat, i: int): (r: Option<nat>)
    ensures r.Some? <==> 0 <= n + i && i < n
    ensures r.Some? ==> r.value < n && (i >= 0 ==> r.value == i) && (i < 0 ==> r.value == n + i)
  {
    if 0 <= i < n then Some(i) else if 0 <= n + i && i < 0 then Some(n + i) else None
  }

  /** `ja[i0][i1]...`: successive indexing; indexing a string gives the
      one-character string at that position. `None` stands for IndexError. */
  function GetElement(ja: Jagged, path: seq<int>): Option<Jagged>
    decreases |path|
  {
    if |path| == 0 then Some(ja)
    else
      match ja
      case Node(cs) =>
        (match PyIndex(|cs|, path[0])
         case None => None
         case Some(k) => GetElement(cs[k], path[1..]))
      case Leaf(s) =>
        (match PyIndex(|s|, path[0])
         case None => None
         case Some(k) => GetElement(Leaf([s[k]]), path[1..]))
  }

  /** The 0-based path of a 1-based section address. */
  function ZeroBased(sections: seq<int>): (path: seq<int>)
    ensures |path| == |sections|
    ensures forall i :: 0 <= i < |sections| ==> path[i] == sections[i] - 1
  {
    seq(|sections|, i requires 0 <= i < |sections| => sections[i] - 1)
  }

  /** `get_text_array`: the part of the version's array at the section address;
      an address without sections means the whole array, and an address out of
      range gives an empty list instead of failing. */
  function GetTextArray(sections: seq<int>, ja: Jagged): (r: Jagged)
    ensures |sections| == 0 ==> r == ja
    ensures |sections| > 0 && ja.Node? && (sections[0] > |ja.children| || sections[0] < 1 - |ja.children|) ==>
              r == Node([])
    ensures |sections| == 1 && ja.Node? && |ja.children| > 0 && sections[0] == 0 ==>
              r == ja.children[|ja.children| - 1]
  {
    if |sections| == 0 then ja
    else
      var path := ZeroBased(sections);
      assert |sections| == 1 && ja.Node? && |ja.children| > 0 && sections[0] == 0 ==>
        path == [-1] && GetElement(ja, path) == GetElement(ja.children[|ja.children| - 1], []);
      match GetElement(ja, path)
      case None => Node([])
      case Some(j) => j
  }

  /** A chapter address `[c]` into a book array with `c` in range reads chapter `c`;
      a `c` past the end reads nothing. */
  lemma GetTextArrayChapter(c: int, chapters: seq<Jagged>)
    ensures 1 <= c <= |chapters| ==> GetTextArray([c], Node(chapters)) == chapters[c - 1]
    ensures c > |chapters| ==> GetTextArray([c], Node(chapters)) == Node([])
  {
    var path := ZeroBased([c]);
    assert path == [c - 1];
    if 1 <= c <= |chapters| {
      assert path[1..] == [];
      assert GetElement(Node(chapters), path) == GetElement(chapters[c - 1], []);
    } else if c > |chapters| {
      assert PyIndex(|chapters|, c - 1) == None;
      assert GetElement(Node(chapters), path) == None;
    }
  }

  /** Same nesting, same list lengths; only the strings may differ. */
  ghost predicate SameShape(a: Jagged, b: Jagged)
    decreases a
  {
    match a
    case Leaf(_) => b.Leaf?
    case Node(xs) =>
      b.Node? && |xs| == |b.children| &&
      forall i :: 0 <= i < |xs| ==> SameShape(xs[i], b.children[i])
  }

  /** `strip_itags_recursive`: applies the markup stripper to every string and
      keeps the nesting exactly as it is. */
  function StripItagsRecursive(j: Jagged, strip: string -> string): (r: Jagged)
    ensures SameShape(j, r)
    ensures j.Leaf? ==> r == Leaf(strip(j.text))
    decreases j
  {
    match j
    case Leaf(s) => Leaf(strip(s))
    case Node(cs) =>
      Node(seq(|cs|, i requires 0 <= i < |cs| => StripItagsRecursive(cs[i], strip)))
  }

  /** The strings of a jagged array in document order. */
  function Strings(j: Jagged): seq<string>
    decreases j, 1
  {
    match j
    case Leaf(s) => [s]
    case Node(cs) => StringsOf(cs)
  }

  function StringsOf(cs: seq<Jagged>): seq<string>
    decreases cs, 0
  {
    if |cs| == 0 then [] else Strings(cs[0]) + StringsOf(cs[1..])
  }

  function MapStrings(ss: seq<string>, f: string -> string): (r: seq<string>)
    ensures |r| == |ss|
    ensures forall i :: 0 <= i < |ss| ==> r[i] == f(ss[i])
  {
    seq(|ss|, i requires 0 <= i < |ss| => f(ss[i]))
  }

  /** Stripping changes each string in place: the stripped array's strings are the
      stripped strings, in the same order. */
  lemma {:induction false} StripItagsStrings(j: Jagged, strip: string -> string)
    ensures Strings(StripItagsRecursive(j, strip)) == MapStrings(Strings(j), strip)
    decreases j, 1
  {
    match j
    case Leaf(s) =>
    case Node(cs) =>
      StripItagsStringsOf(cs, strip);
      var r := StripItagsRecursive(j, strip);
      assert r.children == seq(|cs|, i requires 0 <= i < |cs| => StripItagsRecursive(cs[i], strip));
  }

  lemma {:induction false} StripItagsStringsOf(cs: seq<Jagged>, strip: string -> string)
    ensures StringsOf(seq(|cs|, i requires 0 <= i < |cs| => StripItagsRecursive(cs[i], strip)))
            == MapStrings(StringsOf(cs), strip)
    decreases cs, 0
  {
    var mapped := seq(|cs|, i requires 0 <= i < |cs| => StripItagsRecursive(cs[i], strip));
    if |cs| > 0 {
      StripItagsStrings(cs[0], strip);
      StripItagsStringsOf(cs[1..], strip);
      assert mapped[1..] == seq(|cs[1..]|, i requires 0 <= i < |cs[1..]| => StripItagsRecursive(cs[1..][i], strip));
      assert MapStrings(Strings(cs[0]) + StringsOf(cs[1..]), strip)
          == MapStrings(Strings(cs[0]), strip) + MapStrings(StringsOf(cs[1..]), strip);
    }
  }

  /** How the section loop sees a text array: `len()` and `[x]` of a list are its
      children; of a string, its characters as one-character strings. */
  function Items(j: Jagged): (items: seq<Jagged>)
    ensures j.Node? ==> items == j.children
    ensures j.Leaf? ==> |items| == |j.text|
    ensures j.Leaf? ==> forall k :: 0 <= k < |items| ==> items[k] == Leaf([j.text[k]])
  {
    match j
    case Node(cs) => cs
    case Leaf(s) => seq(|s|, k requires 0 <= k < |s| => Leaf([s[k]]))
  }

  // ---------------------------------------------------------------------------
  // Padding and alignment

  /** `pad_array_to_index(array, index)`: appends `None` until the length is
      `index - 1`. The loop never ends when the array is already longer, so that
      is excluded. */
  function PadArrayToIndex<T>(arr: seq<Option<T>>, index: int): (r: seq<Option<T>>)
    requires |arr| <= index - 1
    ensures |r| == index - 1
    ensures r[..|arr|] == arr
    ensures forall k :: |arr| <= k < |r| ==> r[k] == None
    decreases index - 1 - |arr|
  {
    if |arr| == index - 1 then arr else PadArrayToIndex(arr + [None], index)
  }

  /** The section loop for one output array. `present[x]` is what position `x`
      of the section contributes (`None`: nothing); an entry at `x` is written at
      absolute segment `x + offset + 1`, i.e. index `offset + x`, after padding.
      The result holds every entry at its shifted index, `None` everywhere else,
      and ends on the last entry. */
  function AlignSegments<T>(present: seq<Option<T>>, offset: nat): (r: seq<Option<T>>)
    ensures |r| <= offset + |present|
    ensures forall k :: 0 <= k < |r| ==> r[k] == (if k < offset then None else present[k - offset])
    ensures forall x :: 0 <= x < |present| && offset + x >= |r| ==> present[x].None?
    ensures |r| > 0 ==> r[|r| - 1].Some?
    decreases |present|
  {
    if |present| == 0 then []
    else
      var x := |present| - 1;
      var before := AlignSegments(present[..x], offset);
      match present[x]
      case None => before
      case Some(v) => PadArrayToIndex(before, x + offset + 1) + [Some(v)]
  }

  /** A text array seen through a section of `n` positions. */
  function TextPresence(arr: seq<Jagged>, n: nat): (p: seq<Option<Jagged>>)
    ensures |p| == n
  {
    seq(n, x requires 0 <= x < n => if x < |arr| then Some(arr[x]) else None)
  }

  /** Aligned text of a version: empty when the version has nothing here,
      otherwise `offset` gaps followed by every segment, in order. */
  lemma AlignedText(arr: seq<Jagged>, n: nat, offset: nat)
    requires |arr| <= n
    ensures var r := AlignSegments(TextPresence(arr, n), offset);
      && |r| == (if |arr| == 0 then 0 else offset + |arr|)
      && (forall k :: 0 <= k < offset && k < |r| ==> r[k] == None)
      && (forall x :: 0 <= x < |arr| ==> r[offset + x] == Some(arr[x]))
  {
    var p := TextPresence(arr, n);
    var r := AlignSegments(p, offset);
    if |arr| > 0 {
      assert p[|arr| - 1].Some?;
      assert |r| >= offset + |arr|;
      assert r[|r| - 1].Some?;
    }
  }

  // ---------------------------------------------------------------------------
  // Links

  /** The anchor of a link as a reference: segment level or not, and its start and
      end addresses (a reference's two addresses have the same depth). */
  datatype AnchorRef = AnchorRef(segmentLevel: bool, sections: seq<int>, toSections: seq<int>)
  type Anchor = a: AnchorRef | |a.toSections| == |a.sections| witness AnchorRef(false, [], [])

  datatype Link = Link(anchor: Anchor, sourceRef: string, sourceHeRef: string, category: string, sourceHasEn: bool)

  /** What a section's metadata keeps of a link. `category` is kept only for the
      two categories the app shows; `sourceHasEn` only when it is true. */
  datatype SimpleLink = SimpleLink(sourceHeRef: string, sourceRef: string, category: Option<string>, sourceHasEn: bool)

  /** `simple_link`. */
  function SimplifyLink(l: Link): (s: SimpleLink)
    ensures s.sourceRef == l.sourceRef && s.sourceHeRef == l.sourceHeRef
    ensures s.category.Some? <==> (l.category == "Quoting Commentary" || l.category == "Targum")
    ensures s.category.Some? ==> s.category.value == l.category
    ensures s.sourceHasEn == l.sourceHasEn
  {
    SimpleLink(l.sourceHeRef, l.sourceRef,
               if l.category in ["Quoting Commentary", "Targum"] then Some(l.category) else None,
               l.sourceHasEn)
  }

  /** Links anchored at section level, or without sections, are dropped. */
  predicate Eligible(l: Link) {
    l.anchor.segmentLevel && |l.anchor.sections| > 0
  }

  /** First segment of the anchor span. */
  function SpanStart(l: Link): int
    requires Eligible(l)
  {
    l.anchor.sections[|l.anchor.sections| - 1]
  }

  /** Last segment of the anchor span: the anchor's own end when it starts and
      ends in the same top-level section, otherwise the section length. */
  function SpanEnd(l: Link, sectionLength: int): int
    requires Eligible(l)
  {
    var a := l.anchor;
    if a.sections[0] == a.toSections[0] then a.toSections[|a.toSections| - 1] else sectionLength
  }

  /** Does link `l` land on relative segment `key`? */
  predicate Covers(l: Link, sectionLength: int, key: int) {
    Eligible(l) && SpanStart(l) <= key <= SpanEnd(l, sectionLength)
  }

  /** `defaultdict(list)` lookup. */
  function Lookup(d: map<int, seq<SimpleLink>>, key: int): seq<SimpleLink> {
    if key in d then d[key] else []
  }

  /** `for x in range(lo, hi + 1): d[x] += [s]`. */
  function AddToRange(d: map<int, seq<SimpleLink>>, lo: int, hi: int, s: SimpleLink): (d': map<int, seq<SimpleLink>>)
    ensures forall k :: Lookup(d', k) == Lookup(d, k) + (if lo <= k <= hi then [s] else [])
    ensures forall k :: k in d' <==> k in d || lo <= k <= hi
    decreases hi - lo
  {
    if lo > hi then d else AddToRange(d[lo := Lookup(d, lo) + [s]], lo + 1, hi, s)
  }

  /** `_get_anchor_ref_dict`, over the links returned for the section. */
  function AnchorRefDict(links: seq<Link>, sectionLength: int): (d: map<int, seq<SimpleLink>>)
    ensures forall k :: |Lookup(d, k)| <= |links|
  {
    if |links| == 0 then map[]
    else
      var prev := AnchorRefDict(links[..|links| - 1], sectionLength);
      var l := links[|links| - 1];
      if !Eligible(l) then prev
      else
        var next := AddToRange(prev, SpanStart(l), SpanEnd(l, sectionLength), SimplifyLink(l));
        next
  }

  /** Reference definition: the simplified links that cover `key`, in link order. */
  function LinksCovering(links: seq<Link>, sectionLength: int, key: int): seq<SimpleLink> {
    if |links| == 0 then []
    else
      LinksCovering(links[..|links| - 1], sectionLength, key) +
      (if Covers(links[|links| - 1], sectionLength, key) then [SimplifyLink(links[|links| - 1])] else [])
  }

  /** Every relative segment maps to exactly the links whose anchor span covers
      it, each once, in the order the links were returned. */
  lemma {:induction false} AnchorRefDictSpec(links: seq<Link>, sectionLength: int, key: int)
    ensures Lookup(AnchorRefDict(links, sectionLength), key) == LinksCovering(links, sectionLength, key)
  {
    if |links| > 0 {
      AnchorRefDictSpec(links[..|links| - 1], sectionLength, key);
    }
  }

  /** A covering link's simplified form is among the links covering `key`. */
  lemma {:induction false} LinksCoveringHas(links: seq<Link>, sectionLength: int, key: int, j: nat)
    requires j < |links| && Covers(links[j], sectionLength, key)
    ensures SimplifyLink(links[j]) in LinksCovering(links, sectionLength, key)
  {
    var m := |links| - 1;
    if j < m {
      assert links[..m][j] == links[j];
      LinksCoveringHas(links[..m], sectionLength, key, j);
    }
  }

  /** A segment-level link lands in the dictionary on every segment of its span.
      The span runs to the anchor's own end when the anchor starts and ends in
      the same section, and to the end of the current section otherwise. */
  lemma LinkSpanExtent(links: seq<Link>, sectionLength: int, j: nat, key: int)
    requires j < |links| && Eligible(links[j])
    ensures var a := links[j].anchor;
      a.sections[0] == a.toSections[0] && SpanStart(links[j]) <= key <= a.toSections[|a.toSections| - 1] ==>
        SimplifyLink(links[j]) in Lookup(AnchorRefDict(links, sectionLength), key)
    ensures var a := links[j].anchor;
      a.sections[0] != a.toSections[0] && SpanStart(links[j]) <= key <= sectionLength ==>
        SimplifyLink(links[j]) in Lookup(AnchorRefDict(links, sectionLength), key)
  {
    if Covers(links[j], sectionLength, key) {
      AnchorRefDictSpec(links, sectionLength, key);
      LinksCoveringHas(links, sectionLength, key, j);
    }
  }

  lemma {:induction false} LinksCoveringEmpty(links: seq<Link>, sectionLength: int, key: int)
    ensures |LinksCovering(links, sectionLength, key)| == 0 <==>
            forall i :: 0 <= i < |links| ==> !Covers(links[i], sectionLength, key)
  {
    if |links| > 0 {
      var m := |links| - 1;
      assert forall i :: 0 <= i < m ==> links[..m][i] == links[i];
      LinksCoveringEmpty(links[..m], sectionLength, key);
    }
  }

  /** A segment has no entry in the dictionary exactly when no link's span covers it. */
  lemma UncoveredSegmentHasNoLinks(links: seq<Link>, sectionLength: int, key: int)
    ensures |Lookup(AnchorRefDict(links, sectionLength), key)| == 0 <==>
            forall i :: 0 <= i < |links| ==> !Covers(links[i], sectionLength, key)
  {
    AnchorRefDictSpec(links, sectionLength, key);
    LinksCoveringEmpty(links, sectionLength, key);
  }

  /** The app shows a category only for quoting commentary and targum. */
  predicate ShownCategory(s: SimpleLink) {
    s.category.None? || s.category.value == "Quoting Commentary" || s.category.value == "Targum"
  }

  lemma {:induction false} LinksCoveringCategories(links: seq<Link>, sectionLength: int, key: int)
    ensures forall s :: s in LinksCovering(links, sectionLength, key) ==> ShownCategory(s)
  {
    if |links| > 0 {
      LinksCoveringCategories(links[..|links| - 1], sectionLength, key);
    }
  }

  /** The links array of the section seen through `n` positions: position `x`
      contributes the links of relative segment `x + 1`, when there are any. */
  function LinkPresence(d: map<int, seq<SimpleLink>>, n: nat): (p: seq<Option<seq<SimpleLink>>>)
    ensures |p| == n
  {
    seq(n, x requires 0 <= x < n => if |Lookup(d, x + 1)| > 0 then Some(Lookup(d, x + 1)) else None)
  }

  /** Reference definition of what the metadata shows for relative segment `s`
      of a section of `n` segments: the links covering it, if there are any. */
  function LinkSlot(links: seq<Link>, n: nat, s: int): Option<seq<SimpleLink>> {
    if 1 <= s <= n && |LinksCovering(links, n, s)| > 0 then Some(LinksCovering(links, n, s)) else None
  }

  /** Position `x` of the links presence is the slot of relative segment `x + 1`. */
  lemma LinkPresenceSlots(links: seq<Link>, n: nat)
    ensures forall x :: 0 <= x < n ==> LinkPresence(AnchorRefDict(links, n), n)[x] == LinkSlot(links, n, x + 1)
  {
    var d := AnchorRefDict(links, n);
    var p := LinkPresence(d, n);
    forall x | 0 <= x < n
      ensures p[x] == LinkSlot(links, n, x + 1)
    {
      AnchorRefDictSpec(links, n, x + 1);
      assert Lookup(d, x + 1) == LinksCovering(links, n, x + 1);
    }
  }

  /** The aligned links array holds, at index `k`, the links covering relative
      segment `k - offset + 1` (so `None` in the first `offset` places and
      wherever no link lands), and reaches every segment that has links. */
  lemma AlignedLinks(links: seq<Link>, n: nat, offset: nat)
    ensures |AlignSegments(LinkPresence(AnchorRefDict(links, n), n), offset)| <= offset + n
    ensures var r := AlignSegments(LinkPresence(AnchorRefDict(links, n), n), offset);
      forall k :: 0 <= k < |r| ==> r[k] == LinkSlot(links, n, k - offset + 1)
    ensures var r := AlignSegments(LinkPresence(AnchorRefDict(links, n), n), offset);
      forall s :: 1 <= s <= n && LinkSlot(links, n, s).Some? ==> offset + s - 1 < |r|
  {
    var p := LinkPresence(AnchorRefDict(links, n), n);
    var r := AlignSegments(p, offset);
    LinkPresenceSlots(links, n);
    forall s | 1 <= s <= n && LinkSlot(links, n, s).Some?
      ensures offset + s - 1 < |r|
    {
      assert p[s - 1].Some?;
    }
  }

  // ---------------------------------------------------------------------------
  // Dictionaries built in order

  /** A Python dict filled by assigning `ks[i]: vs[i]` for `i` in order: a later
      occurrence of a key replaces the earlier value. */
  function KeyedMap<K(!new), V>(ks: seq<K>, vs: seq<V>): (m: map<K, V>)
    requires |ks| == |vs|
    ensures forall k :: k in m <==> k in ks
    decreases |ks|
  {
    if |ks| == 0 then map[]
    else KeyedMap(ks[..|ks| - 1], vs[..|vs| - 1])[ks[|ks| - 1] := vs[|vs| - 1]]
  }

  /** A property of every assigned value holds of every value kept. */
  lemma {:induction false} KeyedMapAll<K(!new), V>(ks: seq<K>, vs: seq<V>, P: V -> bool)
    requires |ks| == |vs|
    requires forall i :: 0 <= i < |vs| ==> P(vs[i])
    ensures forall k :: k in KeyedMap(ks, vs) ==> P(KeyedMap(ks, vs)[k])
    decreases |ks|
  {
    if |ks| > 0 {
      var n := |ks| - 1;
      assert forall i :: 0 <= i < n ==> vs[..n][i] == vs[i];
      KeyedMapAll(ks[..n], vs[..n], P);
    }
  }

  /** The value kept for a key is the one of its last occurrence. */
  lemma {:induction false} KeyedMapLastWins<K(!new), V>(ks: seq<K>, vs: seq<V>, i: nat)
    requires |ks| == |vs| && i < |ks|
    requires forall j :: i < j < |ks| ==> ks[j] != ks[i]
    ensures KeyedMap(ks, vs)[ks[i]] == vs[i]
    decreases |ks|
  {
    if i < |ks| - 1 {
      KeyedMapLastWins(ks[..|ks| - 1], vs[..|vs| - 1], i);
    }
  }

  /** Every kept value was assigned under its key. */
  lemma {:induction false} KeyedMapSource<K(!new), V>(ks: seq<K>, vs: seq<V>, k: K) returns (i: nat)
    requires |ks| == |vs| && k in KeyedMap(ks, vs)
    ensures i < |ks| && ks[i] == k && KeyedMap(ks, vs)[k] == vs[i]
    decreases |ks|
  {
    var n := |ks| - 1;
    if ks[n] == k {
      i := n;
    } else {
      i := KeyedMapSource(ks[..n], vs[..n], k);
    }
  }

  /** A dict never has more entries than assignments, and has exactly as many
      when the keys are distinct. */
  lemma {:induction false} KeyedMapSize<K(!new), V>(ks: seq<K>, vs: seq<V>)
    requires |ks| == |vs|
    ensures |KeyedMap(ks, vs)| <= |ks|
    ensures (forall i, j :: 0 <= i < j < |ks| ==> ks[i] != ks[j]) ==> |KeyedMap(ks, vs)| == |ks|
    decreases |ks|
  {
    if |ks| > 0 {
      var n := |ks| - 1;
      KeyedMapSize(ks[..n], vs[..n]);
      if forall i, j :: 0 <= i < j < |ks| ==> ks[i] != ks[j] {
        assert ks[n] !in ks[..n];
      }
    }
  }

  // ---------------------------------------------------------------------------
  // Versions

  datatype Version = Version(title: string, language: string, priority: Option<int>)

  /** A version's rank when merged text is attributed; a version without a
      priority ranks as -1. */
  function Priority(v: Version): int {
    v.priority.GetOr(-1)
  }

  /** The text of one section in one version, or merged from several versions
      (`versions` are the candidates, `sources` the titles that contributed). */
  datatype Chunk =
    | Single(version: Version, ja: Jagged)
    | Merged(versions: seq<Version>, sources: seq<string>, lang: string, ja: Jagged)

  /** The `(versionTitle, language)` pair a version array is filed under. */
  datatype VersionKey = VersionKey(title: string, language: string)

  function Titles(vs: seq<Version>): (ts: seq<string>)
    ensures |ts| == |vs|
    ensures forall i :: 0 <= i < |vs| ==> ts[i] == vs[i].title
  {
    seq(|vs|, i requires 0 <= i < |vs| => vs[i].title)
  }

  /** `{v.versionTitle: v for v in versions}`: each title maps to a version of
      that title from the list (the last one, by `KeyedMapLastWins`). */
  function VersionsByTitle(vs: seq<Version>): (m: map<string, Version>)
    ensures forall t :: t in m <==> t in Titles(vs)
    ensures forall t :: t in m ==> m[t].title == t && m[t] in vs
  {
    var m := KeyedMap(Titles(vs), vs);
    assert forall t :: t in m ==> m[t].title == t && m[t] in vs by {
      forall t | t in m
        ensures m[t].title == t && m[t] in vs
      {
        var i := KeyedMapSource(Titles(vs), vs, t);
      }
    }
    m
  }

  /** Python's `max`: the index of the FIRST greatest key. */
  function FirstMaxIndex(keys: seq<int>): (r: nat)
    requires |keys| > 0
    ensures r < |keys|
    ensures forall j :: 0 <= j < |keys| ==> keys[j] <= keys[r]
    ensures forall j :: 0 <= j < r ==> keys[j] < keys[r]
  {
    if |keys| == 1 then 0
    else
      var r := FirstMaxIndex(keys[..|keys| - 1]);
      if keys[|keys| - 1] > keys[r] then |keys| - 1 else r
  }

  /** Every contributing title of a merged chunk is one of its candidate versions. */
  predicate AllKnown(c: Chunk)
    requires c.Merged?
  {
    forall i :: 0 <= i < |c.sources| ==> c.sources[i] in VersionsByTitle(c.versions)
  }

  /** The priority of the `j`-th contributing title of a merged chunk. */
  function SourcePriority(c: Chunk, j: nat): int
    requires c.Merged? && AllKnown(c) && j < |c.sources|
  {
    Priority(VersionsByTitle(c.versions)[c.sources[j]])
  }

  /** `get_version_details`: an unmerged chunk names its own version; a merged one
      names a contributing title, in the merged chunk's language. No contributing
      title is a ValueError of `max`, a title missing from the candidates a
      KeyError. */
  function GetVersionDetails(c: Chunk): (r: Result<VersionKey>)
    ensures c.Single? ==> r == Success(VersionKey(c.version.title, c.version.language))
    ensures c.Merged? && |c.sources| == 0 ==> r == Failure(EmptyMax)
    ensures c.Merged? && |c.sources| > 0 ==> (r == Failure(MissingKey) <==> !AllKnown(c))
    ensures c.Merged? && r.Success? ==> AllKnown(c) && r.value.language == c.lang && r.value.title in c.sources
  {
    match c
    case Single(v, _) => Success(VersionKey(v.title, v.language))
    case Merged(versions, sources, lang, _) =>
      if |sources| == 0 then Failure(EmptyMax)
      else if !AllKnown(c) then Failure(MissingKey)
      else
        var keys := seq(|sources|, i requires 0 <= i < |sources| => SourcePriority(c, i));
        Success(VersionKey(sources[FirstMaxIndex(keys)], lang))
  }

  /** The priorities of a merged chunk's contributing titles, in order. */
  function SourcePriorities(c: Chunk): (keys: seq<int>)
    requires c.Merged? && AllKnown(c)
    ensures |keys| == |c.sources|
    ensures forall j :: 0 <= j < |c.sources| ==> keys[j] == SourcePriority(c, j)
  {
    seq(|c.sources|, i requires 0 <= i < |c.sources| => SourcePriority(c, i))
  }

  /** A merged chunk is filed under a contributing title of the greatest
      priority. */
  lemma MergedAttributionIsMax(c: Chunk)
    requires c.Merged? && GetVersionDetails(c).Success?
    ensures var t := GetVersionDetails(c).value.title;
      t in VersionsByTitle(c.versions) &&
      forall j :: 0 <= j < |c.sources| ==> SourcePriority(c, j) <= Priority(VersionsByTitle(c.versions)[t])
  {
    var keys := SourcePriorities(c);
    assert keys == seq(|c.sources|, i requires 0 <= i < |c.sources| => SourcePriority(c, i));
    var top := FirstMaxIndex(keys);
    assert GetVersionDetails(c).value.title == c.sources[top];
  }

  /** ... and under the FIRST such title: every contributing title listed before
      its first occurrence has a strictly smaller priority. */
  lemma MergedAttributionIsFirst(c: Chunk)
    requires c.Merged? && GetVersionDetails(c).Success?
    ensures var t := GetVersionDetails(c).value.title;
      t in VersionsByTitle(c.versions) &&
      forall j :: 0 <= j < |c.sources| && t !in c.sources[..j + 1] ==>
        SourcePriority(c, j) < Priority(VersionsByTitle(c.versions)[t])
  {
    var keys := SourcePriorities(c);
    assert keys == seq(|c.sources|, i requires 0 <= i < |c.sources| => SourcePriority(c, i));
    var top := FirstMaxIndex(keys);
    var t := GetVersionDetails(c).value.title;
    assert t == c.sources[top];
    forall j | 0 <= j < |c.sources| && t !in c.sources[..j + 1]
      ensures SourcePriority(c, j) < Priority(VersionsByTitle(c.versions)[t])
    {
      assert keys[j] == SourcePriority(c, j);
    }
  }

  /** `serialize_all_version_details`: the metadata lists every version of the
      text, as `(versionTitle, language)`, whether or not it has content here. */
  function SerializeVersions(vs: seq<Version>): (r: seq<VersionKey>)
    ensures |r| == |vs|
    ensures forall i :: 0 <= i < |vs| ==> r[i] == VersionKey(vs[i].title, vs[i].language)
  {
    seq(|vs|, i requires 0 <= i < |vs| => VersionKey(vs[i].title, vs[i].language))
  }

  // ---------------------------------------------------------------------------
  // section_data

  /** The section's text array of every chunk, stripped of inline markup. */
  function TextArrays(sections: seq<int>, chunks: seq<Chunk>, strip: string -> string): (arrays: seq<seq<Jagged>>)
    ensures |arrays| == |chunks|
  {
    seq(|chunks|, i requires 0 <= i < |chunks| =>
      Items(StripItagsRecursive(GetTextArray(sections, chunks[i].ja), strip)))
  }

  /** `max(len(a) for a in arrays)`. */
  function MaxLen(arrays: seq<seq<Jagged>>): (n: nat)
    requires |arrays| > 0
    ensures forall i :: 0 <= i < |arrays| ==> |arrays[i]| <= n
    ensures exists i :: 0 <= i < |arrays| && |arrays[i]| == n
  {
    if |arrays| == 1 then |arrays[0]|
    else
      var m := MaxLen(arrays[..|arrays| - 1]);
      if |arrays[|arrays| - 1]| > m then |arrays[|arrays| - 1]| else m
  }

  predicate AllResolve(chunks: seq<Chunk>) {
    forall i :: 0 <= i < |chunks| ==> GetVersionDetails(chunks[i]).Success?
  }

  function ChunkKeys(chunks: seq<Chunk>): (ks: seq<VersionKey>)
    requires AllResolve(chunks)
    ensures |ks| == |chunks|
  {
    if |chunks| == 0 then [] else ChunkKeys(chunks[..|chunks| - 1]) + [GetVersionDetails(chunks[|chunks| - 1]).value]
  }

  /** The `i`-th key is the version of the `i`-th chunk. */
  lemma {:induction false} ChunkKeysAt(chunks: seq<Chunk>)
    requires AllResolve(chunks)
    ensures forall i :: 0 <= i < |chunks| ==> ChunkKeys(chunks)[i] == GetVersionDetails(chunks[i]).value
  {
    if |chunks| > 0 {
      var n := |chunks| - 1;
      assert forall i :: 0 <= i < n ==> chunks[..n][i] == chunks[i];
      ChunkKeysAt(chunks[..n]);
    }
  }

  /** `text_by_version[get_version_details(chunk)] = aligned` over the chunks in
      order; the first chunk whose version cannot be named raises. */
  function KeyedByVersion(chunks: seq<Chunk>, aligned: seq<seq<Option<Jagged>>>): (r: Result<map<VersionKey, seq<Option<Jagged>>>>)
    requires |aligned| == |chunks|
    ensures r.Success? <==> AllResolve(chunks)
    ensures r.Success? ==> r.value == KeyedMap(ChunkKeys(chunks), aligned)
  {
    if |chunks| == 0 then Success(map[])
    else
      var n := |chunks| - 1;
      var m :- KeyedByVersion(chunks[..n], aligned[..n]);
      var k :- GetVersionDetails(chunks[n]);
      assert AllResolve(chunks) by {
        assert forall i :: 0 <= i < n ==> chunks[i] == chunks[..n][i];
      }
      assert ChunkKeys(chunks)[..n] == ChunkKeys(chunks[..n]);
      Success(m[k := aligned[n]])
  }

  /** The two outputs of `section_data` the model keeps: the aligned text of each
      version, and the metadata's links array and version list. */
  datatype SectionOutput = SectionOutput(
    texts: map<VersionKey, seq<Option<Jagged>>>,
    links: seq<Option<seq<SimpleLink>>>,
    versions: seq<VersionKey>)

  /** Aligned text of every chunk, over a section of `n` positions. */
  function AlignedChunks(arrays: seq<seq<Jagged>>, n: nat, offset: nat): (aligned: seq<seq<Option<Jagged>>>)
    ensures |aligned| == |arrays|
  {
    seq(|arrays|, i requires 0 <= i < |arrays| => AlignSegments(TextPresence(arrays[i], n), offset))
  }

  /** `IndexExporter.section_data` for one section reference. `sections` is its
      address, `offset` the number of segments of the index before it, `links`
      the links found for it, `strip` the markup stripper, `allVersions` the
      index's versions. With no chunk at all, `max` raises ValueError. */
  function SectionData(sections: seq<int>, chunks: seq<Chunk>, allVersions: seq<Version>,
                       links: seq<Link>, offset: nat, strip: string -> string): (r: Result<SectionOutput>)
    ensures |chunks| == 0 ==> r == Failure(EmptyMax)
    ensures r.Success? <==> |chunks| > 0 && AllResolve(chunks)
    ensures r.Success? ==> r.value.versions == SerializeVersions(allVersions)
    ensures r.Success? ==> forall k :: k in r.value.texts <==> k in ChunkKeys(chunks)
  {
    var arrays := TextArrays(sections, chunks, strip);
    if |arrays| == 0 then Failure(EmptyMax)
    else
      var n := MaxLen(arrays);
      var linksOut := AlignSegments(LinkPresence(AnchorRefDict(links, n), n), offset);
      var texts :- KeyedByVersion(chunks, AlignedChunks(arrays, n, offset));
      Success(SectionOutput(texts, linksOut, SerializeVersions(allVersions)))
  }

  /** There is one version array per chunk, with no filtering of versions that
      have nothing in the section: at most as many as chunks, exactly as many
      when the chunks name distinct versions. */
  lemma SectionDataOnePerChunk(sections: seq<int>, chunks: seq<Chunk>, allVersions: seq<Version>,
                               links: seq<Link>, offset: nat, strip: string -> string)
    requires |chunks| > 0 && AllResolve(chunks)
    ensures |SectionData(sections, chunks, allVersions, links, offset, strip).value.texts| <= |chunks|
    ensures (forall i, j :: 0 <= i < j < |chunks| ==> GetVersionDetails(chunks[i]) != GetVersionDetails(chunks[j])) ==>
              |SectionData(sections, chunks, allVersions, links, offset, strip).value.texts| == |chunks|
  {
    var arrays := TextArrays(sections, chunks, strip);
    var n := MaxLen(arrays);
    var ks := ChunkKeys(chunks);
    ChunkKeysAt(chunks);
    KeyedMapSize(ks, AlignedChunks(arrays, n, offset));
  }

  /** The text array filed for chunk `i` (when no later chunk shares its key) is
      empty if the chunk has nothing in this section; otherwise it has `offset`
      leading `None`s and then the section's segments at positions
      `offset .. offset + L - 1`, so its length is `offset + L`, which is at most
      `offset` plus the section length. */
  lemma SectionDataAlignsText(sections: seq<int>, chunks: seq<Chunk>, allVersions: seq<Version>,
                              links: seq<Link>, offset: nat, strip: string -> string, i: nat)
    requires |chunks| > 0 && AllResolve(chunks)
    requires i < |chunks|
    requires forall j :: i < j < |chunks| ==> GetVersionDetails(chunks[j]) != GetVersionDetails(chunks[i])
    ensures var arrays := TextArrays(sections, chunks, strip);
      var out := SectionData(sections, chunks, allVersions, links, offset, strip).value.texts[ChunkKeys(chunks)[i]];
      && |out| == (if |arrays[i]| == 0 then 0 else offset + |arrays[i]|)
      && |out| <= offset + MaxLen(arrays)
      && (offset == 0 ==> |out| <= MaxLen(arrays))
      && (forall k :: 0 <= k < offset && k < |out| ==> out[k] == None)
      && (forall x :: 0 <= x < |arrays[i]| ==> out[offset + x] == Some(arrays[i][x]))
  {
    var arrays := TextArrays(sections, chunks, strip);
    var n := MaxLen(arrays);
    var ks := ChunkKeys(chunks);
    var aligned := AlignedChunks(arrays, n, offset);
    assert SectionData(sections, chunks, allVersions, links, offset, strip).value.texts == KeyedMap(ks, aligned);
    ChunkKeysAt(chunks);
    assert forall j :: i < j < |ks| ==> ks[j] != ks[i] by {
      forall j | i < j < |ks|
        ensures ks[j] != ks[i]
      {
        assert GetVersionDetails(chunks[j]) != GetVersionDetails(chunks[i]);
      }
    }
    KeyedMapLastWins(ks, aligned, i);
    assert aligned[i] == AlignSegments(TextPresence(arrays[i], n), offset);
    AlignedText(arrays[i], n, offset);
  }

  /** The links array of the section metadata holds, at index `k`, the simplified
      links whose anchor covers relative segment `k - offset + 1` (`None` where
      there are none), and reaches every segment that has links. */
  lemma SectionDataAlignsLinks(sections: seq<int>, chunks: seq<Chunk>, allVersions: seq<Version>,
                               links: seq<Link>, offset: nat, strip: string -> string)
    requires |chunks| > 0 && AllResolve(chunks)
    ensures var n := MaxLen(TextArrays(sections, chunks, strip));
      var r := SectionData(sections, chunks, allVersions, links, offset, strip).value.links;
      && |r| <= offset + n
      && (forall k :: 0 <= k < |r| ==> r[k] == LinkSlot(links, n, k - offset + 1))
      && (forall s :: 1 <= s <= n && LinkSlot(links, n, s).Some? ==> offset + s - 1 < |r|)
  {
    AlignedLinks(links, MaxLen(TextArrays(sections, chunks, strip)), offset);
  }

  /** No array of the section's output outruns the section: every text array and
      the links array are at most `offset` plus the section length long, so at
      most the section length when the offset is 0. */
  lemma SectionDataSegmentBound(sections: seq<int>, chunks: seq<Chunk>, allVersions: seq<Version>,
                                links: seq<Link>, offset: nat, strip: string -> string)
    requires |chunks| > 0 && AllResolve(chunks)
    ensures var n := MaxLen(TextArrays(sections, chunks, strip));
      var out := SectionData(sections, chunks, allVersions, links, offset, strip).value;
      && (forall k :: k in out.texts ==> |out.texts[k]| <= offset + n)
      && |out.links| <= offset + n
  {
    var arrays := TextArrays(sections, chunks, strip);
    var n := MaxLen(arrays);
    var aligned := AlignedChunks(arrays, n, offset);
    assert SectionData(sections, chunks, allVersions, links, offset, strip).value.texts ==
           KeyedMap(ChunkKeys(chunks), aligned);
    forall i | 0 <= i < |aligned|
      ensures |aligned[i]| <= offset + n
    {
      AlignedText(arrays[i], n, offset);
    }
    KeyedMapAll(ChunkKeys(chunks), aligned, v => |v| <= offset + n);
    AlignedLinks(links, n, offset);
  }

  lemma LinkSlotCategory(links: seq<Link>, n: nat, key: int, s: SimpleLink)
    requires LinkSlot(links, n, key).Some? && s in LinkSlot(links, n, key).value
    ensures ShownCategory(s)
  {
    LinksCoveringCategories(links, n, key);
  }

  lemma AlignedSlotCategory(links: seq<Link>, n: nat, offset: nat, k: int, s: SimpleLink)
    requires var r := AlignSegments(LinkPresence(AnchorRefDict(links, n), n), offset);
      0 <= k < |r| && r[k].Some? && s in r[k].value
    ensures ShownCategory(s)
  {
    AlignedLinks(links, n, offset);
    LinkSlotCategory(links, n, k - offset + 1, s);
  }

  /** The links array of a section names a category only when it is one the app
      shows, whatever the links' own categories. */
  lemma AlignedLinkCategories(links: seq<Link>, n: nat, offset: nat)
    ensures var r := AlignSegments(LinkPresence(AnchorRefDict(links, n), n), offset);
      forall k, s :: 0 <= k < |r| && r[k].Some? && s in r[k].value ==> ShownCategory(s)
  {
    var r := AlignSegments(LinkPresence(AnchorRefDict(links, n), n), offset);
    forall k, s | 0 <= k < |r| && r[k].Some? && s in r[k].value
      ensures ShownCategory(s)
    {
      AlignedSlotCategory(links, n, offset, k, s);
    }
  }

  // ---------------------------------------------------------------------------
  // File names

  const SchemaVersion: string := "7"

  /** `EXPORT_PATH`: the schema version's directory under the export root. */
  function ExportPath(root: string): string {
    root + "/" + SchemaVersion
  }

  /** Python's `s[:n]`. */
  function Prefix(s: string, n: nat): (p: string)
    ensures |p| == (if |s| < n then |s| else n)
    ensures p <= s
  {
    if |s| <= n then s else s[..n]
  }

  /** `get_version_hash`: the first eight hex digits of the title's MD5 digest
      (the digest itself is a parameter). */
  function VersionHash(md5hex: string -> string, versionTitle: string): (h: string)
    ensures |h| == if |md5hex(versionTitle)| < 8 then |md5hex(versionTitle)| else 8
    ensures h <= md5hex(versionTitle)
  {
    Prefix(md5hex(versionTitle), 8)
  }

  /** `make_path`: `{EXPORT_PATH}/{tref}.{hash}.{lang}.json`. */
  function MakePath(root: string, md5hex: string -> string, versionTitle: string, lang: string, tref: string): (p: string)
    ensures ExportPath(root) + "/" + tref + "." <= p
    ensures |p| >= |lang| + 6 && p[|p| - |lang| - 6..] == "." + lang + ".json"
    ensures var start := |ExportPath(root) + "/" + tref + "."|;
      |p| == start + |VersionHash(md5hex, versionTitle)| + |lang| + 6 &&
      p[start..|p| - |lang| - 6] == VersionHash(md5hex, versionTitle)
  {
    var p := ExportPath(root) + "/" + tref + "." + VersionHash(md5hex, versionTitle) + "." + lang + ".json";
    assert p == (ExportPath(root) + "/" + tref + ".") + (VersionHash(md5hex, versionTitle) + "." + lang + ".json");
    assert p == (ExportPath(root) + "/" + tref + "." + VersionHash(md5hex, versionTitle)) + ("." + lang + ".json");
    p
  }

  /** Two version titles whose digests share their first eight characters are
      written to the same file: the path sees the title only through the short
      hash. */
  lemma ShortHashSharesPath(root: string, md5hex: string -> string, a: string, b: string, lang: string, tref: string)
    requires |md5hex(a)| >= 8 && |md5hex(b)| >= 8
    requires md5hex(a)[..8] == md5hex(b)[..8]
    ensures MakePath(root, md5hex, a, lang, tref) == MakePath(root, md5hex, b, lang, tref)
  {
  }

  /** In a dot-free head followed by a dot, the first dot is right after the head. */
  lemma FirstDot(h: string, t: string)
    requires '.' !in h
    ensures (h + "." + t)[|h|] == '.'
    ensures forall i :: 0 <= i < |h| ==> (h + "." + t)[i] != '.'
  {
    assert forall i :: 0 <= i < |h| ==> (h + "." + t)[i] == h[i];
  }

  /** Two dot-free heads followed by a dot are split at that dot. */
  lemma DotSplit(h1: string, t1: string, h2: string, t2: string)
    requires '.' !in h1 && '.' !in h2
    requires h1 + "." + t1 == h2 + "." + t2
    ensures h1 == h2 && t1 == t2
  {
    var w := h1 + "." + t1;
    FirstDot(h1, t1);
    FirstDot(h2, t2);
    assert |h1| == |h2|;
    assert h1 == w[..|h1|] && h2 == (h2 + "." + t2)[..|h2|];
    assert t1 == w[|h1| + 1..] && t2 == (h2 + "." + t2)[|h2| + 1..];
  }

  /** For one reference, the export path tells versions apart exactly by their short
      hash and their language (MD5 hex digests contain no dot). */
  lemma MakePathInjective(root: string, md5hex: string -> string, a: string, la: string, b: string, lb: string,
                          tref: string)
    requires '.' !in md5hex(a) && '.' !in md5hex(b)
    ensures MakePath(root, md5hex, a, la, tref) == MakePath(root, md5hex, b, lb, tref) <==>
            VersionHash(md5hex, a) == VersionHash(md5hex, b) && la == lb
  {
    var ha := VersionHash(md5hex, a);
    var hb := VersionHash(md5hex, b);
    assert forall i :: 0 <= i < |ha| ==> ha[i] == md5hex(a)[i];
    assert forall i :: 0 <= i < |hb| ==> hb[i] == md5hex(b)[i];
    var pre := ExportPath(root) + "/" + tref + ".";
    var pa := MakePath(root, md5hex, a, la, tref);
    var pb := MakePath(root, md5hex, b, lb, tref);
    assert pa == pre + (ha + "." + (la + ".json"));
    assert pb == pre + (hb + "." + (lb + ".json"));
    if pa == pb {
      assert pa[|pre|..] == ha + "." + (la + ".json");
      assert pb[|pre|..] == hb + "." + (lb + ".json");
      DotSplit(ha, la + ".json", hb, lb + ".json");
      assert la == (la + ".json")[..|la|];
      assert lb == (lb + ".json")[..|lb|];
    }
  }

  // ---------------------------------------------------------------------------
  // Index document

  /** A JSON value of the index document: a string, or anything else (kept
      verbatim in its serialized form). */
  datatype JsonValue = JString(s: string) | JOther(raw: string)

  function UpperAscii(c: char): char {
    if 'a' <= c <= 'z' then (c as int - 'a' as int + 'A' as int) as char else c
  }

  /** `'he' + key[0].capitalize() + key[1:]`. */
  function HebrewKey(key: string): string
    requires |key| > 0
  {
    "he" + [UpperAscii(key[0])] + key[1..]
  }

  const VersionKeys: seq<string> :=
    ["versionTitle", "versionNotes", "license", "versionSource", "versionTitleInHebrew", "versionNotesInHebrew"]

  /** Every version-identifying key of the index document, then their `he` twins. */
  function RemovedKeys(): (ks: seq<string>)
    ensures |ks| == 2 * |VersionKeys|
  {
    VersionKeys + seq(|VersionKeys|, i requires 0 <= i < |VersionKeys| => HebrewKey(VersionKeys[i]))
  }

  /** The index document after `annotate_versions_on_index`: the remaining keys,
      and the `versions` list (stored under the `versions` key). */
  datatype AnnotatedIndex = AnnotatedIndex(fields: map<string, JsonValue>, versions: seq<map<string, JsonValue>>)

  /** A version entry with its empty-string values dropped. */
  function DropEmptyStrings(version: map<string, JsonValue>): (r: map<string, JsonValue>)
    ensures forall k :: k in r <==> k in version && version[k] != JString("")
    ensures forall k :: k in r ==> r[k] == version[k]
  {
    map k | k in version && version[k] != JString("") :: version[k]
  }

  /** `annotate_versions_on_index`: the version-identifying keys (and their `he`
      forms) are removed, `versions` is replaced by the resolved version list, and
      every empty-string value is dropped from each version entry. */
  function AnnotateVersionsOnIndex(doc: map<string, JsonValue>, versionList: seq<map<string, JsonValue>>): (r: AnnotatedIndex)
    ensures forall k :: k in r.fields <==> k in doc && k !in RemovedKeys() && k != "versions"
    ensures forall k :: k in r.fields ==> r.fields[k] == doc[k]
    ensures |r.versions| == |versionList|
    ensures forall i :: 0 <= i < |r.versions| ==>
              (forall k :: k in r.versions[i] <==> k in versionList[i] && versionList[i][k] != JString(""))
    ensures forall i, k :: 0 <= i < |r.versions| && k in r.versions[i] ==> r.versions[i][k] == versionList[i][k]
  {
    var fields := map k | k in doc && k !in RemovedKeys() && k != "versions" :: doc[k];
    var versions := seq(|versionList|, i requires 0 <= i < |versionList| => DropEmptyStrings(versionList[i]));
    AnnotatedIndex(fields, versions)
  }

  /** The twelve keys removed from the index document. */
  lemma RemovedKeysAreTwelve()
    ensures RemovedKeys() == [
      "versionTitle", "versionNotes", "license", "versionSource", "versionTitleInHebrew", "versionNotesInHebrew",
      "heVersionTitle", "heVersionNotes", "heLicense", "heVersionSource", "heVersionTitleInHebrew", "heVersionNotesInHebrew"]
  {
    assert HebrewKey("versionTitle") == "heVersionTitle";
    assert HebrewKey("versionNotes") == "heVersionNotes";
    assert HebrewKey("license") == "heLicense";
    assert HebrewKey("versionSource") == "heVersionSource";
    assert HebrewKey("versionTitleInHebrew") == "heVersionTitleInHebrew";
    assert HebrewKey("versionNotesInHebrew") == "heVersionNotesInHebrew";
  }

  /** Annotating an already annotated document (with the same version list)
      changes nothing. */
  lemma AnnotateIdempotent(doc: map<string, JsonValue>, versionList: seq<map<string, JsonValue>>)
    ensures var once := AnnotateVersionsOnIndex(doc, versionList);
      AnnotateVersionsOnIndex(once.fields, once.versions) == once
  {
    var once := AnnotateVersionsOnIndex(doc, versionList);
    var twice := AnnotateVersionsOnIndex(once.fields, once.versions);
    assert twice.fields == once.fields;
    forall i | 0 <= i < |once.versions|
      ensures twice.versions[i] == once.versions[i]
    {
      assert DropEmptyStrings(once.versions[i]) == once.versions[i];
    }
  }
}
