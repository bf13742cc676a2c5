/** The bundle endpoint of the download server: a request names books, the
    archives present in the export directory are gathered into one bundle whose
    name depends only on which archives it holds, and an existing bundle of that
    name is reused. */
module DownloadServer {
  import opened Results

  // ---------------------------------------------------------------------------
  // String order

  /** Python's string comparison: lexicographic by code point. */
  predicate StrLe(a: string, b: string) {
    |a| == 0 || (|b| > 0 && (a[0] < b[0] || (a[0] == b[0] && StrLe(a[1..], b[1..]))))
  }

  lemma {:induction false} StrLeRefl(a: string)
    ensures StrLe(a, a)
  {
    if |a| > 0 {
      StrLeRefl(a[1..]);
    }
  }

  lemma {:induction false} StrLeTotal(a: string, b: string)
    ensures StrLe(a, b) || StrLe(b, a)
  {
    if |a| > 0 && |b| > 0 && a[0] == b[0] {
      StrLeTotal(a[1..], b[1..]);
    }
  }

  lemma {:induction false} StrLeAntisym(a: string, b: string)
    requires StrLe(a, b) && StrLe(b, a)
    ensures a == b
  {
    if |a| > 0 && |b| > 0 {
      StrLeAntisym(a[1..], b[1..]);
      assert a == [a[0]] + a[1..] && b == [b[0]] + b[1..];
    }
  }

  lemma {:induction false} StrLeTrans(a: string, b: string, c: string)
    requires StrLe(a, b) && StrLe(b, c)
    ensures StrLe(a, c)
  {
    if |a| > 0 && |b| > 0 && |c| > 0 && a[0] == b[0] && b[0] == c[0] {
      StrLeTrans(a[1..], b[1..], c[1..]);
    }
  }

  // ---------------------------------------------------------------------------
  // sorted()

  predicate Sorted(s: seq<string>) {
    forall i, j :: 0 <= i < j < |s| ==> StrLe(s[i], s[j])
  }

  /** Inserts `x` before the first element it does not exceed. */
  function Insert(x: string, s: seq<string>): (r: seq<string>)
    requires Sorted(s)
    ensures multiset(r) == multiset(s) + multiset{x}
    ensures Sorted(r)
  {
    if |s| == 0 then [x]
    else if StrLe(x, s[0]) then
      assert forall j :: 0 <= j < |s| ==> StrLe(x, s[j]) by {
        forall j | 0 <= j < |s|
          ensures StrLe(x, s[j])
        {
          if j > 0 {
            StrLeTrans(x, s[0], s[j]);
          }
        }
      }
      [x] + s
    else
      var rest := Insert(x, s[1..]);
      StrLeTotal(x, s[0]);
      assert forall y :: y in rest ==> StrLe(s[0], y) by {
        forall y | y in rest
          ensures StrLe(s[0], y)
        {
          assert y in multiset(rest);
          if y != x {
            assert y in s[1..];
          }
        }
      }
      assert s == [s[0]] + s[1..];
      [s[0]] + rest
  }

  /** `sorted(names)`: an insertion sort (equal strings are identical, so
      stability does not show). */
  function SortStrings(s: seq<string>): (r: seq<string>)
    ensures multiset(r) == multiset(s)
    ensures Sorted(r)
  {
    if |s| == 0 then []
    else
      assert s == [s[0]] + s[1..];
      Insert(s[0], SortStrings(s[1..]))
  }

  /** Two sorted arrangements of one non-empty collection begin alike. */
  lemma SortedHeadsAgree(a: seq<string>, b: seq<string>)
    requires Sorted(a) && Sorted(b)
    requires multiset(a) == multiset(b)
    requires |a| > 0
    ensures |b| > 0 && a[0] == b[0]
  {
    assert a[0] in multiset(b);
    var j :| 0 <= j < |b| && b[j] == a[0];
    assert b[0] in multiset(a);
    var i :| 0 <= i < |a| && a[i] == b[0];
    if i > 0 {
      assert StrLe(a[0], b[0]);
    } else {
      StrLeRefl(a[0]);
    }
    if j > 0 {
      assert StrLe(b[0], a[0]);
    } else {
      StrLeRefl(b[0]);
    }
    StrLeAntisym(a[0], b[0]);
  }

  /** Dropping the first element keeps a sequence sorted and removes one copy
      of that element from its multiset. */
  lemma SortedTail(a: seq<string>)
    requires Sorted(a) && |a| > 0
    ensures Sorted(a[1..])
    ensures multiset(a[1..]) == multiset(a) - multiset{a[0]}
  {
    assert a == [a[0]] + a[1..];
  }

  /** There is only one sorted arrangement of a collection of names. */
  lemma {:induction false} SortedUnique(a: seq<string>, b: seq<string>)
    requires Sorted(a) && Sorted(b)
    requires multiset(a) == multiset(b)
    ensures a == b
  {
    if |a| == 0 {
      assert |multiset(b)| == 0;
    } else {
      SortedHeadsAgree(a, b);
      SortedTail(a);
      SortedTail(b);
      SortedUnique(a[1..], b[1..]);
      assert a == [a[0]] + a[1..] && b == [b[0]] + b[1..];
    }
  }

  /** Sorting forgets the order of its input. */
  lemma SortIgnoresOrder(a: seq<string>, b: seq<string>)
    requires multiset(a) == multiset(b)
    ensures SortStrings(a) == SortStrings(b)
  {
    SortedUnique(SortStrings(a), SortStrings(b));
  }

  // ---------------------------------------------------------------------------
  // Bundle names

  /** `'|'.join(names)`. */
  function JoinBar(names: seq<string>): string {
    if |names| == 0 then ""
    else if |names| == 1 then names[0]
    else names[0] + "|" + JoinBar(names[1..])
  }

  /** `get_bundle_filename`: the hex digest of the sorted, `|`-joined archive
      names, plus `.zip`. `sha1` is the hex digest function. */
  function BundleFilename(archives: seq<string>, sha1: string -> string): (name: string)
    ensures |name| >= 4 && name[|name| - 4..] == ".zip"
    ensures name[..|name| - 4] == sha1(JoinBar(SortStrings(archives)))
  {
    sha1(JoinBar(SortStrings(archives))) + ".zip"
  }

  /** The bundle name does not depend on the order of the archives. */
  lemma BundleFilenamePermutation(a: seq<string>, b: seq<string>, sha1: string -> string)
    requires multiset(a) == multiset(b)
    ensures BundleFilename(a, sha1) == BundleFilename(b, sha1)
  {
    SortIgnoresOrder(a, b);
  }

  // ---------------------------------------------------------------------------
  // create_zip_bundle

  /** A POST body: absent or not JSON, or JSON with an optional `books` list. */
  datatype Request = NoJson | Json(books: Option<seq<string>>)

  datatype Response =
    | InvalidJson                 // status 400
    | BooksNotFound               // {'error': 'requested books not found'}
    | Bundle(name: string)        // {'bundle': name}

  /** The response, and the bundle directory afterwards (bundle name to the
      archives it holds). */
  datatype Served = Served(response: Response, bundles: map<string, seq<string>>)

  /** Both `request.json` and its `books` entry must be present and non-empty. */
  predicate ValidRequest(req: Request) {
    req.Json? && req.books.Some? && |req.books.value| > 0
  }

  /** Each requested book's archive name, kept when it exists in the export
      directory. */
  function RequestedArchives(books: seq<string>, exportFiles: set<string>): (archives: seq<string>)
    ensures |archives| <= |books|
    ensures forall a :: a in archives ==> a in exportFiles
    ensures forall i :: 0 <= i < |books| && books[i] + ".zip" in exportFiles ==> books[i] + ".zip" in archives
  {
    if |books| == 0 then []
    else
      (if books[0] + ".zip" in exportFiles then [books[0] + ".zip"] else []) +
      RequestedArchives(books[1..], exportFiles)
  }

  /** `create_zip_bundle`: invalid requests are refused first; a request none of
      whose books exist is answered with an error; otherwise the bundle is named
      by its archives and written only when no bundle of that name exists. */
  function CreateZipBundle(req: Request, exportFiles: set<string>, bundles: map<string, seq<string>>,
                           sha1: string -> string): (s: Served)
    ensures !ValidRequest(req) ==> s == Served(InvalidJson, bundles)
    ensures ValidRequest(req) && |RequestedArchives(req.books.value, exportFiles)| == 0 ==>
              s == Served(BooksNotFound, bundles)
    ensures ValidRequest(req) && |RequestedArchives(req.books.value, exportFiles)| > 0 ==>
              var archives := RequestedArchives(req.books.value, exportFiles);
              && s.response == Bundle(BundleFilename(archives, sha1))
              && s.bundles.Keys == bundles.Keys + {s.response.name}
              && (s.response.name !in bundles ==> s.bundles[s.response.name] == archives)
    ensures forall k :: k in bundles ==> k in s.bundles && s.bundles[k] == bundles[k]
  {
    if !ValidRequest(req) then Served(InvalidJson, bundles)
    else
      var archives := RequestedArchives(req.books.value, exportFiles);
      if |archives| == 0 then Served(BooksNotFound, bundles)
      else
        var name := BundleFilename(archives, sha1);
        if name in bundles then Served(Bundle(name), bundles)
        else Served(Bundle(name), bundles[name := archives])
  }

  /** `b.zip` is the archive of book `b` and of no other. */
  lemma ZipSuffixInjective(a: string, b: string)
    requires a + ".zip" == b + ".zip"
    ensures a == b
  {
    assert a == (a + ".zip")[..|a|];
    assert b == (b + ".zip")[..|b|];
  }

  /** How many times an archive appears among the requested archives: as often
      as its book was requested, if it exists. */
  lemma {:induction false} RequestedCount(books: seq<string>, exportFiles: set<string>, b: string)
    ensures multiset(RequestedArchives(books, exportFiles))[b + ".zip"] ==
            if b + ".zip" in exportFiles then multiset(books)[b] else 0
  {
    if |books| > 0 {
      RequestedCount(books[1..], exportFiles, b);
      assert books == [books[0]] + books[1..];
      if books[0] + ".zip" == b + ".zip" {
        ZipSuffixInjective(books[0], b);
      }
    }
  }

  /** Only archive names of requested books appear among the requested archives. */
  lemma {:induction false} RequestedAreArchives(books: seq<string>, exportFiles: set<string>, a: string)
    requires a in RequestedArchives(books, exportFiles)
    ensures exists b :: b in books && a == b + ".zip"
  {
    if books[0] + ".zip" in exportFiles && a == books[0] + ".zip" {
    } else {
      RequestedAreArchives(books[1..], exportFiles, a);
    }
  }

  /** Requests for the same books, in any order, gather the same archives (as a
      collection). */
  lemma RequestedPermutation(a: seq<string>, b: seq<string>, exportFiles: set<string>)
    requires multiset(a) == multiset(b)
    ensures multiset(RequestedArchives(a, exportFiles)) == multiset(RequestedArchives(b, exportFiles))
  {
    var ma := multiset(RequestedArchives(a, exportFiles));
    var mb := multiset(RequestedArchives(b, exportFiles));
    forall x
      ensures ma[x] == mb[x]
    {
      if x in ma {
        RequestedAreArchives(a, exportFiles, x);
        var book :| book in a && x == book + ".zip";
        RequestedCount(a, exportFiles, book);
        RequestedCount(b, exportFiles, book);
      } else if x in mb {
        RequestedAreArchives(b, exportFiles, x);
        var book :| book in b && x == book + ".zip";
        RequestedCount(a, exportFiles, book);
        RequestedCount(b, exportFiles, book);
      }
    }
    assert ma == mb;
  }

  /** Requests for the same books in any order get the same answer and leave the
      same set of bundle names. A newly built bundle stores its archives in the
      order of the request, so the stored lists may differ. */
  lemma PermutedRequestSameBundle(a: seq<string>, b: seq<string>, exportFiles: set<string>,
                                  bundles: map<string, seq<string>>, sha1: string -> string)
    requires multiset(a) == multiset(b)
    ensures CreateZipBundle(Json(Some(a)), exportFiles, bundles, sha1).response ==
            CreateZipBundle(Json(Some(b)), exportFiles, bundles, sha1).response
    ensures CreateZipBundle(Json(Some(a)), exportFiles, bundles, sha1).bundles.Keys ==
            CreateZipBundle(Json(Some(b)), exportFiles, bundles, sha1).bundles.Keys
  {
    RequestedPermutation(a, b, exportFiles);
    var ra := RequestedArchives(a, exportFiles);
    var rb := RequestedArchives(b, exportFiles);
    assert |ra| == |multiset(ra)| && |rb| == |multiset(rb)|;
    assert |a| == |multiset(a)| && |b| == |multiset(b)|;
    BundleFilenamePermutation(ra, rb, sha1);
  }

  lemma {:induction false} RequestedAppendMissing(books: seq<string>, extra: seq<string>, exportFiles: set<string>)
    requires forall i :: 0 <= i < |extra| ==> extra[i] + ".zip" !in exportFiles
    ensures RequestedArchives(books + extra, exportFiles) == RequestedArchives(books, exportFiles)
  {
    if |books| > 0 {
      assert (books + extra)[1..] == books[1..] + extra;
      RequestedAppendMissing(books[1..], extra, exportFiles);
    } else {
      assert books + extra == extra;
      RequestedOfMissing(extra, exportFiles);
    }
  }

  lemma {:induction false} RequestedOfMissing(extra: seq<string>, exportFiles: set<string>)
    requires forall i :: 0 <= i < |extra| ==> extra[i] + ".zip" !in exportFiles
    ensures RequestedArchives(extra, exportFiles) == []
  {
    if |extra| > 0 {
      RequestedOfMissing(extra[1..], exportFiles);
    }
  }

  /** Asking in addition for books that have no archive changes nothing. */
  lemma MissingBooksDoNotChangeBundle(books: seq<string>, extra: seq<string>, exportFiles: set<string>,
                                      bundles: map<string, seq<string>>, sha1: string -> string)
    requires |books| > 0
    requires forall i :: 0 <= i < |extra| ==> extra[i] + ".zip" !in exportFiles
    ensures CreateZipBundle(Json(Some(books + extra)), exportFiles, bundles, sha1) ==
            CreateZipBundle(Json(Some(books)), exportFiles, bundles, sha1)
  {
    RequestedAppendMissing(books, extra, exportFiles);
  }

  /** Serving the same request again answers the same and writes nothing. */
  lemma CreateZipBundleIdempotent(req: Request, exportFiles: set<string>, bundles: map<string, seq<string>>,
                                  sha1: string -> string)
    ensures var first := CreateZipBundle(req, exportFiles, bundles, sha1);
      var second := CreateZipBundle(req, exportFiles, first.bundles, sha1);
      second.response == first.response && second.bundles == first.bundles
  {
  }
}
