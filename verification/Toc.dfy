/** The table of contents the app downloads: cleaning it of nodes the app cannot
    show, listing the books under a category path, the downloadable packages and
    their sizes, and the books added since the last snapshot. */
module Toc {
  import opened Results

  /** A node of the table of contents: a category with its children, a book
      title, a sheet group or collection, or anything else. */
  datatype TocNode =
    | Category(name: string, contents: seq<TocNode>)
    | Title(title: string)
    | Group
    | Other

  // ---------------------------------------------------------------------------
  // Leaves and cleaning

  /** The book titles of a list of nodes, depth first, in document order. */
  function Leaves(toc: seq<TocNode>): seq<string>
    decreases toc, 0
  {
    if |toc| == 0 then [] else NodeLeaves(toc[0]) + Leaves(toc[1..])
  }

  function NodeLeaves(t: TocNode): seq<string>
    decreases t, 1
  {
    match t
    case Category(_, cs) => Leaves(cs)
    case Title(x) => [x]
    case _ => []
  }

  lemma {:induction false} LeavesAppend(a: seq<TocNode>, b: seq<TocNode>)
    ensures Leaves(a + b) == Leaves(a) + Leaves(b)
  {
    if |a| > 0 {
      assert (a + b)[1..] == a[1..] + b;
      LeavesAppend(a[1..], b);
    } else {
      assert a + b == b;
    }
  }

  /** A tree the app can show: only categories and titles, at every level. */
  predicate AllHandled(toc: seq<TocNode>)
    decreases toc, 0
  {
    forall i :: 0 <= i < |toc| ==> Handled(toc[i])
  }

  predicate Handled(t: TocNode)
    decreases t, 1
  {
    match t
    case Category(_, cs) => AllHandled(cs)
    case Title(_) => true
    case _ => false
  }

  /** `clean_toc_nodes` on one node: a category keeps its name and has its
      children cleaned, a title is kept, groups and anything else are dropped. */
  function CleanNode(t: TocNode): (r: seq<TocNode>)
    ensures |r| <= 1
    ensures forall i :: 0 <= i < |r| ==> Handled(r[i])
    ensures (t.Category? || t.Title?) <==> |r| == 1
    ensures t.Title? ==> r == [t]
    ensures t.Category? ==> r[0].Category? && r[0].name == t.name && |r[0].contents| <= |t.contents|
    decreases t, 1
  {
    match t
    case Category(n, cs) => [Category(n, Clean(cs))]
    case Title(_) => [t]
    case _ => []
  }

  /** `clean_toc_nodes`. */
  function Clean(toc: seq<TocNode>): (r: seq<TocNode>)
    ensures |r| <= |toc|
    ensures AllHandled(r)
    decreases toc, 0
  {
    if |toc| == 0 then [] else CleanNode(toc[0]) + Clean(toc[1..])
  }

  /** Cleaning removes no book: the titles, and their order, are unchanged. */
  lemma {:induction false} CleanKeepsLeaves(toc: seq<TocNode>)
    ensures Leaves(Clean(toc)) == Leaves(toc)
    decreases toc, 0
  {
    if |toc| > 0 {
      CleanNodeKeepsLeaves(toc[0]);
      CleanKeepsLeaves(toc[1..]);
      LeavesAppend(CleanNode(toc[0]), Clean(toc[1..]));
    }
  }

  lemma {:induction false} CleanNodeKeepsLeaves(t: TocNode)
    ensures Leaves(CleanNode(t)) == NodeLeaves(t)
    decreases t, 1
  {
    match t
    case Category(n, cs) =>
      CleanKeepsLeaves(cs);
      assert Leaves([Category(n, Clean(cs))]) == NodeLeaves(Category(n, Clean(cs))) + Leaves([]);
    case Title(x) =>
      assert Leaves([t]) == NodeLeaves(t) + Leaves([]);
    case _ =>
  }

  /** A cleaned category keeps its name, the same books in the same order, and
      only nodes the app can show below it. */
  lemma {:induction false} CleanKeepsCategory(t: TocNode)
    requires t.Category?
    ensures var r := CleanNode(t);
      |r| == 1 && r[0].Category? && r[0].name == t.name &&
      Leaves(r[0].contents) == Leaves(t.contents) && AllHandled(r[0].contents)
  {
    CleanKeepsLeaves(t.contents);
  }

  /** The shape of a tree as a token stream, depth first: entering a category,
      a book, leaving the category. Groups and unknown nodes contribute nothing. */
  datatype Token = Enter(name: string) | Book(title: string) | Leave

  function Skeleton(toc: seq<TocNode>): seq<Token>
    decreases toc, 0
  {
    if |toc| == 0 then [] else NodeSkeleton(toc[0]) + Skeleton(toc[1..])
  }

  function NodeSkeleton(t: TocNode): seq<Token>
    decreases t, 1
  {
    match t
    case Category(n, cs) => [Enter(n)] + Skeleton(cs) + [Leave]
    case Title(x) => [Book(x)]
    case _ => []
  }

  lemma {:induction false} SkeletonAppend(a: seq<TocNode>, b: seq<TocNode>)
    ensures Skeleton(a + b) == Skeleton(a) + Skeleton(b)
  {
    if |a| > 0 {
      assert (a + b)[1..] == a[1..] + b;
      SkeletonAppend(a[1..], b);
    } else {
      assert a + b == b;
    }
  }

  /** Cleaning removes only groups and unknown nodes: every category, emptied
      or not, and every title stays where it was, so the token stream is the
      same. */
  lemma {:induction false} CleanKeepsSkeleton(toc: seq<TocNode>)
    ensures Skeleton(Clean(toc)) == Skeleton(toc)
    decreases toc, 0
  {
    if |toc| > 0 {
      CleanNodeKeepsSkeleton(toc[0]);
      CleanKeepsSkeleton(toc[1..]);
      SkeletonAppend(CleanNode(toc[0]), Clean(toc[1..]));
    }
  }

  lemma {:induction false} CleanNodeKeepsSkeleton(t: TocNode)
    ensures Skeleton(CleanNode(t)) == NodeSkeleton(t)
    decreases t, 1
  {
    match t
    case Category(n, cs) =>
      CleanKeepsSkeleton(cs);
      assert Skeleton([Category(n, Clean(cs))]) == NodeSkeleton(Category(n, Clean(cs))) + Skeleton([]);
    case Title(x) =>
      assert Skeleton([t]) == NodeSkeleton(t) + Skeleton([]);
    case _ =>
  }

  /** A tree the app can show is left as it is. */
  lemma {:induction false} CleanFixesHandled(toc: seq<TocNode>)
    requires AllHandled(toc)
    ensures Clean(toc) == toc
    decreases toc, 0
  {
    if |toc| > 0 {
      CleanNodeFixesHandled(toc[0]);
      CleanFixesHandled(toc[1..]);
      assert toc == [toc[0]] + toc[1..];
    }
  }

  lemma {:induction false} CleanNodeFixesHandled(t: TocNode)
    requires Handled(t)
    ensures CleanNode(t) == [t]
    decreases t, 1
  {
    match t
    case Category(n, cs) => CleanFixesHandled(cs);
    case Title(_) =>
  }

  /** Cleaning twice is cleaning once. */
  lemma CleanIdempotent(toc: seq<TocNode>)
    ensures Clean(Clean(toc)) == Clean(toc)
  {
    CleanFixesHandled(Clean(toc));
  }

  // ---------------------------------------------------------------------------
  // Books under a category path

  /** What one pass over a level collects, and whether anything matched. */
  datatype Scan = Scan(indexes: seq<string>, found: bool)

  /** Python's `cats[1:]`, which is `[]` for an empty path. */
  function Tail(cats: seq<string>): seq<string> {
    if |cats| == 0 then [] else cats[1..]
  }

  /** One node of the loop in `get_indexes_in_category`. A category matches when
      the path is empty or starts with its name; its books are those of its
      children under the rest of the path, and an empty category adds none. A
      title counts only when the path is empty. */
  function VisitNode(cats: seq<string>, t: TocNode): (r: Result<Scan>)
    ensures r.Success? ==> forall x :: x in r.value.indexes ==> x in NodeLeaves(t)
    decreases t, 2
  {
    match t
    case Category(n, cs) =>
      if |cats| == 0 || n == cats[0] then
        if |cs| == 0 then Success(Scan([], true))
        else
          var sub :- GetIndexes(Tail(cats), cs);
          Success(Scan(sub, true))
      else Success(Scan([], false))
    case Title(x) => if |cats| == 0 then Success(Scan([x], true)) else Success(Scan([], false))
    case _ => Success(Scan([], false))
  }

  /** The loop of `get_indexes_in_category` over the nodes of one level. */
  function ScanLevel(cats: seq<string>, toc: seq<TocNode>): (r: Result<Scan>)
    ensures r.Success? ==> forall x :: x in r.value.indexes ==> x in Leaves(toc)
    decreases toc, 0
  {
    if |toc| == 0 then Success(Scan([], false))
    else
      var head :- VisitNode(cats, toc[0]);
      var rest :- ScanLevel(cats, toc[1..]);
      Success(Scan(head.indexes + rest.indexes, head.found || rest.found))
  }

  /** `get_indexes_in_category(cats, toc)`: InputError when nothing at this level
      matched (or a deeper level raised). */
  function GetIndexes(cats: seq<string>, toc: seq<TocNode>): (r: Result<seq<string>>)
    ensures |toc| == 0 ==> r == Failure(InputError)
    ensures r.Success? ==> forall x :: x in r.value ==> x in Leaves(toc)
    decreases toc, 1
  {
    var s :- ScanLevel(cats, toc);
    if s.found then Success(s.indexes) else Failure(InputError)
  }

  /** With an empty path, a tree the app can show lists every book, depth first
      in document order; only an empty top level raises. */
  lemma FullLibraryListing(toc: seq<TocNode>)
    requires AllHandled(toc)
    ensures GetIndexes([], toc) == if |toc| == 0 then Failure(InputError) else Success(Leaves(toc))
  {
    ScanAllLeaves(toc);
  }

  lemma {:induction false} ScanAllLeaves(toc: seq<TocNode>)
    requires AllHandled(toc)
    ensures ScanLevel([], toc) == Success(Scan(Leaves(toc), |toc| > 0))
    decreases toc, 0
  {
    if |toc| > 0 {
      VisitAllLeaves(toc[0]);
      ScanAllLeaves(toc[1..]);
    }
  }

  lemma {:induction false} VisitAllLeaves(t: TocNode)
    requires Handled(t)
    ensures VisitNode([], t) == Success(Scan(NodeLeaves(t), true))
    decreases t, 2
  {
    match t
    case Category(n, cs) =>
      if |cs| > 0 {
        ScanAllLeaves(cs);
      }
    case Title(x) =>
  }

  /** The categories of a level named `c`, in order. */
  function Matching(c: string, toc: seq<TocNode>): (ms: seq<TocNode>)
    ensures forall i :: 0 <= i < |ms| ==> ms[i].Category? && ms[i].name == c
  {
    if |toc| == 0 then []
    else (if toc[0].Category? && toc[0].name == c then [toc[0]] else []) + Matching(c, toc[1..])
  }

  /** Reference definition for a non-empty path: the books under each matched
      category in turn (none for an empty one), failing when one of them fails. */
  function Descend(rest: seq<string>, ms: seq<TocNode>): Result<seq<string>> {
    if |ms| == 0 then Success([])
    else
      var head :- (match ms[0]
                   case Category(_, cs) => if |cs| == 0 then Success([]) else GetIndexes(rest, cs)
                   case _ => Success([]));
      var tail :- Descend(rest, ms[1..]);
      Success(head + tail)
  }

  /** With a path `c` followed by `rest`, the walk enters only the categories
      named `c`, ignoring titles and other categories at this level, lists their
      books under `rest`, and raises InputError when no category is named `c`. */
  lemma PathListing(cats: seq<string>, toc: seq<TocNode>)
    requires |cats| > 0
    ensures GetIndexes(cats, toc) ==
              if |Matching(cats[0], toc)| == 0 then
                (match Descend(cats[1..], Matching(cats[0], toc))
                 case Failure(e) => Failure(e)
                 case Success(_) => Failure(InputError))
              else Descend(cats[1..], Matching(cats[0], toc))
  {
    ScanPath(cats, toc);
  }

  lemma {:induction false} ScanPath(cats: seq<string>, toc: seq<TocNode>)
    requires |cats| > 0
    ensures ScanLevel(cats, toc) ==
              match Descend(cats[1..], Matching(cats[0], toc))
              case Failure(e) => Failure(e)
              case Success(r) => Success(Scan(r, |Matching(cats[0], toc)| > 0))
  {
    if |toc| > 0 {
      ScanPath(cats, toc[1..]);
      var c := cats[0];
      var rest := Matching(c, toc[1..]);
      if toc[0].Category? && toc[0].name == c {
        var ms := Matching(c, toc);
        assert ms == [toc[0]] + rest;
        assert ms[0] == toc[0] && ms[1..] == rest;
      } else {
        assert Matching(c, toc) == rest;
        assert VisitNode(cats, toc[0]) == Success(Scan([], false));
        match ScanLevel(cats, toc[1..])
        case Failure(_) =>
        case Success(tl) =>
          assert [] + tl.indexes == tl.indexes;
      }
    }
  }

  /** A matched category without children contributes no book and does not raise. */
  lemma EmptyCategoryMatches(c: string, rest: seq<string>)
    ensures GetIndexes([c] + rest, [Category(c, [])]) == Success([])
  {
    PathListing([c] + rest, [Category(c, [])]);
    assert Matching(c, [Category(c, [])]) == [Category(c, [])];
  }

  // ---------------------------------------------------------------------------
  // Packages

  /** `c.split("/")`. */
  function SplitPath(s: string): (parts: seq<string>)
    ensures |parts| > 0
    ensures forall i :: 0 <= i < |parts| ==> '/' !in parts[i]
  {
    if |s| == 0 then [""]
    else
      var rest := SplitPath(s[1..]);
      if s[0] == '/' then [""] + rest else [[s[0]] + rest[0]] + rest[1..]
  }

  /** `"/".join(parts)`. */
  function JoinPath(parts: seq<string>): string
    requires |parts| > 0
  {
    if |parts| == 1 then parts[0] else parts[0] + "/" + JoinPath(parts[1..])
  }

  /** Splitting a category path and joining it again gives the path back. */
  lemma {:induction false} JoinSplitPath(s: string)
    ensures JoinPath(SplitPath(s)) == s
  {
    if |s| > 0 {
      JoinSplitPath(s[1..]);
      var rest := SplitPath(s[1..]);
      if s[0] == '/' {
        assert ([""] + rest)[1..] == rest;
      } else {
        var parts := [[s[0]] + rest[0]] + rest[1..];
        if |rest| == 1 {
          assert parts == [[s[0]] + rest[0]];
        } else {
          assert parts[1..] == rest[1..];
          assert JoinPath(rest) == rest[0] + "/" + JoinPath(rest[1..]);
        }
      }
    }
  }

  /** Joining slash-free names and splitting again gives the names back. */
  lemma {:induction false} SplitJoinPath(parts: seq<string>)
    requires |parts| > 0
    requires forall i :: 0 <= i < |parts| ==> '/' !in parts[i]
    ensures SplitPath(JoinPath(parts)) == parts
  {
    if |parts| == 1 {
      SplitPrefix(parts[0], "");
      assert parts[0] + "" == parts[0];
    } else {
      SplitJoinPath(parts[1..]);
      var tail := JoinPath(parts[1..]);
      SplitPrefix(parts[0], "/" + tail);
      assert ("/" + tail)[1..] == tail;
      assert SplitPath("/" + tail) == [""] + parts[1..];
      assert parts[0] + "/" + tail == parts[0] + ("/" + tail);
      assert parts[0] + "" == parts[0];
      assert [parts[0]] + parts[1..] == parts;
    }
  }

  /** A slash-free prefix glues onto the first piece of what follows it. */
  lemma {:induction false} SplitPrefix(w: string, s: string)
    requires '/' !in w
    ensures SplitPath(w + s) == [w + SplitPath(s)[0]] + SplitPath(s)[1..]
  {
    if |w| > 0 {
      SplitPrefix(w[1..], s);
      assert (w + s)[1..] == w[1..] + s;
      assert (w + s)[0] == w[0] && w[0] != '/';
      assert [w[0]] + (w[1..] + SplitPath(s)[0]) == w + SplitPath(s)[0];
    } else {
      var ps := SplitPath(s);
      assert w + s == s;
      assert w + ps[0] == ps[0];
      assert [ps[0]] + ps[1..] == ps;
    }
  }

  /** `[]` for a failed lookup: a package category that does not exist is reported
      and skipped. */
  function OrEmpty(r: Result<seq<string>>): seq<string> {
    match r
    case Success(v) => v
    case Failure(_) => []
  }

  /** The books of a package with categories: each category's books in turn. */
  function CategoryIndexes(categories: seq<string>, toc: seq<TocNode>): seq<string> {
    if |categories| == 0 then []
    else OrEmpty(GetIndexes(SplitPath(categories[0]), toc)) + CategoryIndexes(categories[1..], toc)
  }

  /** Listing a package's categories piecewise lists the same books. */
  lemma {:induction false} CategoryIndexesAppend(a: seq<string>, b: seq<string>, toc: seq<TocNode>)
    ensures CategoryIndexes(a + b, toc) == CategoryIndexes(a, toc) + CategoryIndexes(b, toc)
  {
    if |a| > 0 {
      assert (a + b)[1..] == a[1..] + b;
      CategoryIndexesAppend(a[1..], b, toc);
    } else {
      assert a + b == b;
    }
  }

  lemma MissingCategoryListsNothing(c: string, toc: seq<TocNode>)
    requires GetIndexes(SplitPath(c), toc).Failure?
    ensures CategoryIndexes([c], toc) == []
  {
    assert [c][1..] == [];
  }

  /** A category path naming no category contributes no book wherever it stands
      in the package's list: the package lists, and sizes, the books of the other
      categories as if it were absent. */
  lemma MissingCategoryContributesNothing(a: seq<string>, c: string, b: seq<string>, toc: seq<TocNode>,
                                          files: map<string, nat>)
    requires GetIndexes(SplitPath(c), toc).Failure?
    ensures CategoryIndexes(a + [c] + b, toc) == CategoryIndexes(a + b, toc)
    ensures |a + b| > 0 ==> ResolvePackage(a + [c] + b, toc, files) == ResolvePackage(a + b, toc, files)
  {
    var left := CategoryIndexes(a, toc);
    var right := CategoryIndexes(b, toc);
    CategoryIndexesAppend(a + [c], b, toc);
    CategoryIndexesAppend(a, [c], toc);
    CategoryIndexesAppend(a, b, toc);
    MissingCategoryListsNothing(c, toc);
    assert CategoryIndexes(a + [c], toc) == left + [];
    assert left + [] == left;
  }

  /** Size in bytes of the books' archives; a book without an archive counts 0. */
  function PackageSize(indexes: seq<string>, files: map<string, nat>): (size: nat)
    ensures (forall i :: 0 <= i < |indexes| ==> indexes[i] + ".zip" !in files) ==> size == 0
    ensures forall i :: 0 <= i < |indexes| && indexes[i] + ".zip" in files ==> files[indexes[i] + ".zip"] <= size
    ensures |indexes| == 1 ==> size == if indexes[0] + ".zip" in files then files[indexes[0] + ".zip"] else 0
  {
    if |indexes| == 0 then 0
    else
      var name := indexes[0] + ".zip";
      (if name in files then files[name] else 0) + PackageSize(indexes[1..], files)
  }

  /** The size of a package is the sum of the sizes of its parts. */
  lemma {:induction false} PackageSizeAppend(a: seq<string>, b: seq<string>, files: map<string, nat>)
    ensures PackageSize(a + b, files) == PackageSize(a, files) + PackageSize(b, files)
  {
    if |a| > 0 {
      assert (a + b)[1..] == a[1..] + b;
      PackageSizeAppend(a[1..], b, files);
    } else {
      assert a + b == b;
    }
  }

  /** Every listed book adds exactly its archive's size, wherever it stands in the
      list, and nothing when its archive is absent. */
  lemma PackageSizeCountsEachBook(a: seq<string>, book: string, c: seq<string>, files: map<string, nat>)
    ensures PackageSize(a + [book] + c, files) ==
            PackageSize(a + c, files) + (if book + ".zip" in files then files[book + ".zip"] else 0)
  {
    PackageSizeAppend(a + [book], c, files);
    PackageSizeAppend(a, [book], files);
    PackageSizeAppend(a, c, files);
  }

  /** A downloadable package: its books (listed only when it names categories;
      a package without categories is the whole library) and their size. */
  datatype Package = Package(indexes: Option<seq<string>>, size: nat)

  /** The per-package loop of `get_downloadable_packages`. */
  function ResolvePackage(categories: seq<string>, toc: seq<TocNode>, files: map<string, nat>): (p: Package)
    ensures p.indexes.Some? <==> |categories| > 0
    ensures p.indexes.Some? ==> p.size == PackageSize(p.indexes.value, files)
  {
    if |categories| > 0 then
      var indexes := CategoryIndexes(categories, toc);
      Package(Some(indexes), PackageSize(indexes, files))
    else
      Package(None, PackageSize(OrEmpty(GetIndexes([], toc)), files))
  }

  /** The whole-library package of a tree the app can show counts every book of
      the library once per occurrence. */
  lemma WholeLibrarySize(toc: seq<TocNode>, files: map<string, nat>)
    requires AllHandled(toc)
    ensures ResolvePackage([], toc, files).size == PackageSize(Leaves(toc), files)
  {
    FullLibraryListing(toc);
  }

  // ---------------------------------------------------------------------------
  // New books

  /** `get_books` of `new_books_since_last_update`: the titles of a tree. */
  function BookSet(toc: seq<TocNode>): set<string>
    decreases toc, 0
  {
    if |toc| == 0 then {} else NodeBooks(toc[0]) + BookSet(toc[1..])
  }

  function NodeBooks(t: TocNode): set<string>
    decreases t, 1
  {
    match t
    case Category(_, cs) => BookSet(cs)
    case Title(x) => {x}
    case _ => {}
  }

  lemma {:induction false} BookSetIsLeaves(toc: seq<TocNode>)
    ensures forall b :: b in BookSet(toc) <==> b in Leaves(toc)
    decreases toc, 0
  {
    if |toc| > 0 {
      NodeBooksIsLeaves(toc[0]);
      BookSetIsLeaves(toc[1..]);
    }
  }

  lemma {:induction false} NodeBooksIsLeaves(t: TocNode)
    ensures forall b :: b in NodeBooks(t) <==> b in NodeLeaves(t)
    decreases t, 1
  {
    match t
    case Category(_, cs) => BookSetIsLeaves(cs);
    case Title(_) =>
    case _ =>
  }

  /** `new_books_since_last_update`: the books of the (cleaned) library that the
      last snapshot does not record; `recorded` is the snapshot's title set, empty
      when there is no snapshot. */
  function NewBooksSinceLastUpdate(rawToc: seq<TocNode>, recorded: set<string>): (added: set<string>)
    ensures forall b :: b in added <==> b in Leaves(rawToc) && b !in recorded
  {
    var books := BookSet(Clean(rawToc));
    BookSetIsLeaves(Clean(rawToc));
    CleanKeepsLeaves(rawToc);
    set b | b in books && b !in recorded
  }
}
