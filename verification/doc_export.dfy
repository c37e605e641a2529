// The export of a tree of pages as files (oto_mcp/doc_export.py, `build_export`).

module DocExport {
  import opened Decimal
  import opened ExportNames

  datatype Parent = Root | Under(id: nat)

  /** A page. `plain` is its title folded to lower case. The pages of a list come in the order
      siblings are written. */
  datatype Page = Page(id: nat, parent: Parent, title: string, plain: string, body: string)

  predicate DistinctIds(docs: seq<Page>) {
    forall j, k | 0 <= j < k < |docs| :: docs[j].id != docs[k].id
  }

  function OnOneLine(s: string): (r: string)
    ensures |r| == |s| && forall k | 0 <= k < |s| :: r[k] == if s[k] == '\n' then ' ' else s[k]
  {
    seq(|s|, k requires 0 <= k < |s| => if s[k] == '\n' then ' ' else s[k])
  }

  function Text(p: Page): string {
    (if p.title == "" then "" else "# " + OnOneLine(p.title) + "\n\n") + p.body
  }

  /** A file holds the body of its page, under the title on one line when there is one. */
  lemma TextHolds(p: Page)
    ensures p.title == "" ==> Text(p) == p.body
    ensures p.title != "" ==>
              exists line: string ::
                && Text(p) == "# " + line + "\n\n" + p.body && |line| == |p.title| && (forall c <- line :: c != '\n')
                && forall k | 0 <= k < |line| && p.title[k] != '\n' :: line[k] == p.title[k]
  {
    assert "" + p.body == p.body;
    if p.title != "" {
      var line := OnOneLine(p.title);
      assert Text(p) == "# " + line + "\n\n" + p.body;
      assert forall c <- line :: c != '\n';
    }
  }

  function Children(docs: seq<Page>, parent: Parent): (r: seq<Page>)
    ensures forall p :: p in r <==> p in docs && p.parent == parent
  {
    if docs == [] then [] else (if docs[0].parent == parent then [docs[0]] else []) + Children(docs[1..], parent)
  }

  /** The children of a page keep the order of the list. */
  lemma {:induction false} ChildrenInOrder(docs: seq<Page>, p: Page, parent: Parent)
    ensures Children(docs + [p], parent) == Children(docs, parent) + if p.parent == parent then [p] else []
  {
    if docs == [] {
      assert docs + [p] == [p] && [p][1..] == [];
    } else {
      assert (docs + [p])[1..] == docs[1..] + [p];
      ChildrenInOrder(docs[1..], p, parent);
    }
  }

  lemma {:induction false} ChildrenDistinct(docs: seq<Page>, parent: Parent)
    requires DistinctIds(docs)
    ensures DistinctIds(Children(docs, parent))
  {
    if docs != [] {
      ChildrenDistinct(docs[1..], parent);
      var rest := Children(docs[1..], parent);
      forall k | 0 <= k < |rest|
        ensures rest[k].id != docs[0].id
      {
        assert rest[k] in docs[1..];
      }
    }
  }

  // ---- the names of siblings

  function Names(pages: seq<Page>): (r: seq<string>)
    ensures |r| == |pages|
  {
    if pages == [] then []
    else
      var before, last := Names(pages[..|pages| - 1]), pages[|pages| - 1];
      before + [NameAmong(Slug(last.plain, last.id), SetOf(before))]
  }

  function SetOf(names: seq<string>): set<string> {
    set s | s in names
  }

  lemma {:induction false} NamesPrefix(pages: seq<Page>, i: nat)
    requires i <= |pages|
    ensures Names(pages[..i]) == Names(pages)[..i]
  {
    if i < |pages| {
      var before := pages[..|pages| - 1];
      NamesPrefix(before, i);
      assert before[..i] == pages[..i] && Names(pages)[..|pages| - 1] == Names(before);
    } else {
      assert pages[..i] == pages;
    }
  }

  /** Siblings bear distinct names. */
  lemma {:induction false} NamesAreDistinct(pages: seq<Page>)
    ensures forall k | 0 <= k < |pages| :: IsName(Names(pages)[k])
    ensures forall j, k | 0 <= j < k < |pages| :: Names(pages)[j] != Names(pages)[k]
  {
    if pages != [] {
      var before, last := pages[..|pages| - 1], pages[|pages| - 1];
      NamesAreDistinct(before);
      NamesLast(pages);
      hide Names, Slug;
      var used := SetOf(Names(before));
      assert forall k | 0 <= k < |before| :: Names(before)[k] in used;
      var base := Slug(last.plain, last.id);
      NumberedIsName(base, FirstFree(base, used, 2));
    }
  }

  function IndexIn(pages: seq<Page>, p: Page): (k: nat)
    requires p in pages
    ensures k < |pages| && pages[k] == p
  {
    if pages[0] == p then 0 else 1 + IndexIn(pages[1..], p)
  }

  function NameOf(docs: seq<Page>, p: Page): string
    requires p in docs
  {
    var siblings := Children(docs, p.parent);
    Names(siblings)[IndexIn(siblings, p)]
  }

  lemma NamesLast(pages: seq<Page>)
    requires pages != []
    ensures
      var before, last := Names(pages[..|pages| - 1]), pages[|pages| - 1];
      Names(pages) == before + [NameAmong(Slug(last.plain, last.id), SetOf(before))]
  {
    hide Slug, SetOf, NameAmong;
  }

  lemma {:induction false} NamesFromTitles(pages: seq<Page>, k: nat)
    requires k < |pages|
    ensures
      var slug := Slug(pages[k].plain, pages[k].id);
      Names(pages)[k] == slug || exists n: nat :: n >= 2 && Names(pages)[k] == slug + "-" + Digits(n)
  {
    hide *;
    var before, last := pages[..|pages| - 1], pages[|pages| - 1];
    NamesLast(pages);
    if k < |before| {
      NamesFromTitles(before, k);
    } else {
      NameFromTitle(Slug(last.plain, last.id), SetOf(Names(before)));
    }
  }

  /** A page is named after its own title, numbered from 2 on where that name is taken. */
  lemma NameIsFromTitle(docs: seq<Page>, p: Page)
    requires p in docs
    ensures
      var slug := Slug(p.plain, p.id);
      NameOf(docs, p) == slug || exists n: nat :: n >= 2 && NameOf(docs, p) == slug + "-" + Digits(n)
  {
    var siblings := Children(docs, p.parent);
    NamesFromTitles(siblings, IndexIn(siblings, p));
    hide Slug, Names, Children;
  }

  lemma NamesTellSiblingsApart(docs: seq<Page>, p: Page, q: Page)
    requires p in docs && q in docs && p.parent == q.parent
    ensures IsName(NameOf(docs, p)) && (NameOf(docs, p) == NameOf(docs, q) ==> p == q)
  {
    var siblings := Children(docs, p.parent);
    NamesAreDistinct(siblings);
    hide Names, Children, IsName;
    var i, j := IndexIn(siblings, p), IndexIn(siblings, q);
    assert i < j || j < i ==> Names(siblings)[i] != Names(siblings)[j];
  }

  // ---- paths

  function ParentAt(path: seq<Page>, k: nat): Parent
    requires k <= |path|
  {
    if k == 0 then Root else Under(path[k - 1].id)
  }

  predicate Follows(docs: seq<Page>, path: seq<Page>, k: nat)
    requires k < |path|
  {
    path[k] in docs && path[k].parent == ParentAt(path, k)
  }

  /** A chain of pages from a root down, each the parent of the next one. */
  predicate IsPath(docs: seq<Page>, path: seq<Page>) {
    forall k | 0 <= k < |path| :: Follows(docs, path, k)
  }

  lemma SameId(docs: seq<Page>, p: Page, q: Page)
    requires DistinctIds(docs) && p in docs && q in docs && p.id == q.id
    ensures p == q
  {
  }

  // The last page of a path, and the path that leads to its parent.
  lemma PathLast(docs: seq<Page>, p: seq<Page>)
    requires IsPath(docs, p) && p != []
    ensures
      var m := |p| - 1;
      && p[m] in docs && ParentAt(p, |p|) == Under(p[m].id) && p == p[..m] + [p[m]]
      && IsPath(docs, p[..m]) && ParentAt(p[..m], m) == p[m].parent
  {
    PathInit(docs, p, |p| - 1);
    assert Follows(docs, p, |p| - 1);
  }

  // A page is reached by one path only.
  lemma {:induction false} OnePathEach(docs: seq<Page>, p: seq<Page>, q: seq<Page>)
    requires DistinctIds(docs) && IsPath(docs, p) && IsPath(docs, q) && ParentAt(p, |p|) == ParentAt(q, |q|)
    ensures p == q
    decreases |p|
  {
    hide IsPath, DistinctIds;
    if p != [] && q != [] {
      PathLast(docs, p);
      PathLast(docs, q);
      SameId(docs, p[|p| - 1], q[|q| - 1]);
      hide ParentAt;
      OnePathEach(docs, p[..|p| - 1], q[..|q| - 1]);
    }
  }

  lemma PathInit(docs: seq<Page>, p: seq<Page>, n: nat)
    requires IsPath(docs, p) && n <= |p|
    ensures IsPath(docs, p[..n]) && forall k | 0 <= k <= n :: ParentAt(p[..n], k) == ParentAt(p, k)
  {
    assert forall k | 0 <= k < n :: Follows(docs, p, k) && Follows(docs, p[..n], k);
  }

  /** No page comes twice on a path, whatever cycles the pointers make elsewhere: a path is
      no longer than the list of pages. */
  lemma PathsAreShort(docs: seq<Page>, path: seq<Page>)
    requires DistinctIds(docs) && IsPath(docs, path)
    ensures forall j, k | 0 <= j < k < |path| :: path[j] != path[k]
    ensures |path| <= |docs|
  {
    forall j, k | 0 <= j < k < |path|
      ensures path[j] != path[k]
    {
      NoPageTwice(docs, path, j, k);
    }
    assert forall k | 0 <= k < |path| :: Follows(docs, path, k) && path[k] in docs;
    hide IsPath;
    DistinctWithin(path, docs);
  }

  lemma NoPageTwice(docs: seq<Page>, path: seq<Page>, j: nat, k: nat)
    requires DistinctIds(docs) && IsPath(docs, path) && j < k < |path|
    ensures path[j] != path[k]
  {
    hide IsPath, DistinctIds;
    PathInit(docs, path, j + 1);
    PathInit(docs, path, k + 1);
    if path[j] == path[k] {
      OnePathEach(docs, path[..j + 1], path[..k + 1]);
    }
  }

  lemma {:induction false} DistinctWithin<T>(a: seq<T>, b: seq<T>)
    requires (forall j, k | 0 <= j < k < |a| :: a[j] != a[k]) && forall x <- a :: x in b
    ensures |a| <= |b|
  {
    if a != [] {
      var x := a[0];
      assert x in b;
      var i :| 0 <= i < |b| && b[i] == x;
      var rest := b[..i] + b[i + 1..];
      forall y | y in a[1..]
        ensures y in rest
      {
        assert y in b && y != x;
        var j :| 0 <= j < |b| && b[j] == y;
        assert if j < i then rest[j] == y else rest[j - 1] == y;
      }
      DistinctWithin(a[1..], rest);
    }
  }

  // ---- where each page is written

  function NamesAlong(docs: seq<Page>, path: seq<Page>): (r: seq<string>)
    requires IsPath(docs, path)
    ensures |r| == |path|
  {
    seq(|path|, k requires 0 <= k < |path| => assert Follows(docs, path, k); NameOf(docs, path[k]))
  }

  lemma PageAt(docs: seq<Page>, path: seq<Page>, k: nat)
    requires IsPath(docs, path) && k < |path|
    ensures path[k] in docs && path[k].parent == ParentAt(path, k)
    ensures NamesAlong(docs, path)[k] == NameOf(docs, path[k])
  {
    assert Follows(docs, path, k);
  }

  predicate HasChildren(docs: seq<Page>, p: Page) {
    Children(docs, Under(p.id)) != []
  }

  /** Where a page is written: below the folders of its ancestors, in a folder of its own when some
      page is under it, as a file of its own otherwise. */
  lemma FileOfIs(docs: seq<Page>, path: seq<Page>)
    requires IsPath(docs, path) && path != []
    ensures
      var n := |path| - 1;
      && IsPath(docs, path[..n]) && path[n] in docs
      && FileOf(docs, path)
         == Folder(NamesAlong(docs, path[..n])) + NameOf(docs, path[n])
            + if exists q <- docs :: q.parent == Under(path[n].id) then "/_index.md" else ".md"
  {
    var n := |path| - 1;
    hide *;
    NamesAlongLast(docs, path);
    FolderMore(NamesAlong(docs, path[..n]), NameOf(docs, path[n]), HasChildren(docs, path[n]));
    SomeChild(docs, path[n]);
    FileOfNames(docs, path);
  }

  lemma FileOfNames(docs: seq<Page>, path: seq<Page>)
    requires IsPath(docs, path) && path != []
    ensures FileOf(docs, path) == FileName(NamesAlong(docs, path), HasChildren(docs, path[|path| - 1]))
  {
  }

  lemma NamesAlongLast(docs: seq<Page>, path: seq<Page>)
    requires IsPath(docs, path) && path != []
    ensures
      var n := |path| - 1;
      && IsPath(docs, path[..n]) && path[n] in docs
      && NamesAlong(docs, path) == NamesAlong(docs, path[..n]) + [NameOf(docs, path[n])]
  {
    var n := |path| - 1;
    hide *;
    PathInit(docs, path, n);
    PageAt(docs, path, n);
    var names, above := NamesAlong(docs, path), NamesAlong(docs, path[..n]);
    forall k | 0 <= k < n
      ensures names[k] == above[k]
    {
      PageAt(docs, path, k);
      PageAt(docs, path[..n], k);
    }
    assert names == above + [NameOf(docs, path[n])];
  }

  lemma SomeChild(docs: seq<Page>, p: Page)
    ensures HasChildren(docs, p) <==> exists q <- docs :: q.parent == Under(p.id)
  {
    var kids := Children(docs, Under(p.id));
    if HasChildren(docs, p) {
      assert kids[0] in kids;
    }
  }

  // A page with children is a folder and its `_index.md`; a leaf is a file of its own.
  function FileOf(docs: seq<Page>, path: seq<Page>): string
    requires IsPath(docs, path) && path != []
  {
    FileName(NamesAlong(docs, path), HasChildren(docs, path[|path| - 1]))
  }

  lemma NamesAlongAreNames(docs: seq<Page>, path: seq<Page>)
    requires IsPath(docs, path)
    ensures AllNames(NamesAlong(docs, path))
  {
    var names := NamesAlong(docs, path);
    forall k | 0 <= k < |path|
      ensures IsName(names[k])
    {
      PageAt(docs, path, k);
      NamesTellSiblingsApart(docs, path[k], path[k]);
    }
  }

  // Paths that agree so far, with the same name next, agree one page further.
  lemma SameNextPage(docs: seq<Page>, p: seq<Page>, q: seq<Page>, n: nat)
    requires IsPath(docs, p) && IsPath(docs, q) && n < |p| && n < |q| && p[..n] == q[..n]
    requires NamesAlong(docs, p)[n] == NamesAlong(docs, q)[n]
    ensures p[..n + 1] == q[..n + 1]
  {
    hide *;
    SameParent(p, q, n);
    PageAt(docs, p, n);
    PageAt(docs, q, n);
    NamesTellSiblingsApart(docs, p[n], q[n]);
    assert p[..n + 1] == p[..n] + [p[n]] && q[..n + 1] == q[..n] + [q[n]];
  }

  /** The names along a path tell which path it is. */
  lemma {:induction false} NamesTellPathsApart(docs: seq<Page>, p: seq<Page>, q: seq<Page>, n: nat)
    requires IsPath(docs, p) && IsPath(docs, q) && n <= |p| && n <= |q|
    requires forall k | 0 <= k < n :: NamesAlong(docs, p)[k] == NamesAlong(docs, q)[k]
    ensures p[..n] == q[..n]
  {
    if n > 0 {
      NamesTellPathsApart(docs, p, q, n - 1);
      assert NamesAlong(docs, p)[n - 1] == NamesAlong(docs, q)[n - 1];
      hide NameOf, NamesAlong, IsPath;
      SameNextPage(docs, p, q, n - 1);
    }
  }

  lemma SameParent(p: seq<Page>, q: seq<Page>, n: nat)
    requires n <= |p| && n <= |q| && p[..n] == q[..n]
    ensures ParentAt(p, n) == ParentAt(q, n)
  {
    assert n > 0 ==> p[..n][n - 1] == q[..n][n - 1];
  }

  /** Two paths are written in the same file only if they are the same. */
  lemma DistinctFiles(docs: seq<Page>, p: seq<Page>, q: seq<Page>)
    requires IsPath(docs, p) && IsPath(docs, q) && p != [] && q != []
    ensures FileOf(docs, p) == FileOf(docs, q) <==> p == q
  {
    hide IsPath, AllNames, FileName, NamesAlong, HasChildren;
    NamesAlongAreNames(docs, p);
    NamesAlongAreNames(docs, q);
    if FileOf(docs, p) == FileOf(docs, q) {
      SameFileName(NamesAlong(docs, p), HasChildren(docs, p[|p| - 1]), NamesAlong(docs, q), HasChildren(docs, q[|q| - 1]));
      NamesTellPathsApart(docs, p, q, |p|);
    }
  }

  // A leaf, and a page with children whose name is the file of the leaf, in the same folder.
  predicate FolderNamedAsLeaf(docs: seq<Page>, p: seq<Page>, q: seq<Page>)
    requires IsPath(docs, p) && IsPath(docs, q) && p != []
  {
    var n := |p| - 1;
    var a, b := NamesAlong(docs, p), NamesAlong(docs, q);
    && !HasChildren(docs, p[n]) && |p| <= |q| && p[..n] == q[..n]
    && b[n] == a[n] + ".md" && (|p| < |q| || HasChildren(docs, q[n]))
  }

  /** The file of a page stands where another page needs a folder exactly when a leaf has a
      sibling with children whose name is the leaf's with `.md`: unpacked, the two collide. */
  lemma FileInTheWayIff(docs: seq<Page>, p: seq<Page>, q: seq<Page>)
    requires IsPath(docs, p) && IsPath(docs, q) && p != [] && q != []
    ensures FileOf(docs, p) + "/" <= FileOf(docs, q) <==> FolderNamedAsLeaf(docs, p, q)
  {
    hide IsPath, AllNames, FileName, NamesAlong, HasChildren;
    NamesAlongAreNames(docs, p);
    NamesAlongAreNames(docs, q);
    OpensFileName(NamesAlong(docs, p), HasChildren(docs, p[|p| - 1]), NamesAlong(docs, q), HasChildren(docs, q[|q| - 1]));
    if |p| <= |q| {
      SameBeginning(docs, p, q, |p| - 1);
    }
  }

  lemma SameBeginning(docs: seq<Page>, p: seq<Page>, q: seq<Page>, n: nat)
    requires IsPath(docs, p) && IsPath(docs, q) && n <= |p| && n <= |q|
    ensures p[..n] == q[..n] <==> NamesAlong(docs, p)[..n] == NamesAlong(docs, q)[..n]
  {
    hide IsPath, NamesAlong;
    var a, b := NamesAlong(docs, p), NamesAlong(docs, q);
    if a[..n] == b[..n] {
      assert forall k | 0 <= k < n :: a[..n][k] == b[..n][k];
      NamesTellPathsApart(docs, p, q, n);
    }
    if p[..n] == q[..n] {
      forall k | 0 <= k < n
        ensures a[k] == b[k]
      {
        PageAt(docs, p, k);
        PageAt(docs, q, k);
        assert p[..n][k] == q[..n][k];
      }
    }
  }
}
