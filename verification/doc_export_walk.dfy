// The walk that writes the files of an export (oto_mcp/doc_export.py, `walk`, `build_export`).

module DocExportWalk {
  import opened ExportNames
  import opened DocExport
  import opened FiniteSets

  // The file that a path is written in, and its text.
  ghost predicate Writes(docs: seq<Page>, path: seq<Page>, file: string, text: string) {
    IsPath(docs, path) && path != [] && FileOf(docs, path) == file && Text(path[|path| - 1]) == text
  }

  // Every file is that of a path.
  ghost predicate Sound(docs: seq<Page>, files: map<string, string>) {
    forall f <- files :: exists path: seq<Page> :: Writes(docs, path, f, files[f])
  }

  // The paths that go on from `path` through one of the pages of `first`.
  ghost predicate Below(docs: seq<Page>, path: seq<Page>, first: seq<Page>, q: seq<Page>) {
    IsPath(docs, q) && |q| > |path| && q[..|path|] == path && q[|path|] in first
  }

  ghost predicate AllWritten(docs: seq<Page>, path: seq<Page>, first: seq<Page>, files: map<string, string>) {
    forall q | Below(docs, path, first, q) :: FileOf(docs, q) in files
  }

  /** All that an export of `docs` writes: every path its file, and nothing else. */
  ghost predicate Exported(docs: seq<Page>, files: map<string, string>) {
    && Sound(docs, files)
    && forall q | IsPath(docs, q) && q != [] :: FileOf(docs, q) in files
  }

  lemma PathGoesOn(docs: seq<Page>, path: seq<Page>, d: Page)
    requires IsPath(docs, path) && d in Children(docs, ParentAt(path, |path|))
    ensures IsPath(docs, path + [d])
  {
    var next := path + [d];
    hide Children;
    forall k | 0 <= k < |next|
      ensures Follows(docs, next, k)
    {
      assert k < |path| ==> Follows(docs, path, k);
    }
  }

  lemma PathMore(docs: seq<Page>, path: seq<Page>, d: Page)
    requires IsPath(docs, path) && d in Children(docs, ParentAt(path, |path|))
    ensures IsPath(docs, path + [d])
    ensures NamesAlong(docs, path + [d]) == NamesAlong(docs, path) + [NameOf(docs, d)]
  {
    hide *;
    PathGoesOn(docs, path, d);
    var next := path + [d];
    var a, b := NamesAlong(docs, next), NamesAlong(docs, path);
    PageAt(docs, next, |path|);
    forall k | 0 <= k < |path|
      ensures a[k] == b[k]
    {
      PageAt(docs, next, k);
      PageAt(docs, path, k);
    }
    assert a == b + [NameOf(docs, d)];
  }

  // The name a sibling takes when those before it have theirs.
  lemma NextName(docs: seq<Page>, parent: Parent, i: nat, used: set<string>)
    requires DistinctIds(docs) && i < |Children(docs, parent)|
    requires used == SetOf(Names(Children(docs, parent)[..i]))
    ensures
      var d := Children(docs, parent)[i];
      d in docs && NameAmong(Slug(d.plain, d.id), used) == NameOf(docs, d) == Names(Children(docs, parent))[i]
  {
    hide *;
    var kids := Children(docs, parent);
    ChildrenDistinct(docs, parent);
    IndexOfDistinct(kids, i);
    NameAfter(kids, i);
    NameWithIndex(docs, kids[i]);
  }

  lemma NameWithIndex(docs: seq<Page>, d: Page)
    requires d in docs
    ensures d in Children(docs, d.parent)
    ensures NameOf(docs, d) == Names(Children(docs, d.parent))[IndexIn(Children(docs, d.parent), d)]
  {
  }

  lemma IndexOfDistinct(pages: seq<Page>, i: nat)
    requires DistinctIds(pages) && i < |pages|
    ensures pages[i] in pages && IndexIn(pages, pages[i]) == i
  {
    hide IndexIn;
    assert pages[IndexIn(pages, pages[i])].id == pages[i].id;
  }

  lemma NameAfter(pages: seq<Page>, i: nat)
    requires i < |pages|
    ensures Names(pages)[i] == NameAmong(Slug(pages[i].plain, pages[i].id), SetOf(Names(pages[..i])))
  {
    hide NameAmong, Slug, SetOf;
    var first := pages[..i + 1];
    assert first[..i] == pages[..i] && first[i] == pages[i];
    assert Names(first)[i] == NameAmong(Slug(pages[i].plain, pages[i].id), SetOf(Names(first[..i])));
    hide Names;
    NamesPrefix(pages, i + 1);
  }

  lemma UsedMore(pages: seq<Page>, i: nat, used: set<string>)
    requires i < |pages| && used == SetOf(Names(pages[..i]))
    ensures used + {Names(pages)[i]} == SetOf(Names(pages[..i + 1]))
  {
    hide *;
    NamesPrefix(pages, i);
    NamesPrefix(pages, i + 1);
    OneLonger(Names(pages), i);
    SetOfMore(Names(pages)[..i], Names(pages)[i]);
  }

  lemma OneLonger<T>(s: seq<T>, i: nat)
    requires i < |s|
    ensures s[..i + 1] == s[..i] + [s[i]]
  {
  }

  lemma SetOfMore(names: seq<string>, name: string)
    ensures SetOf(names + [name]) == SetOf(names) + {name}
  {
  }

  lemma SoundMore(docs: seq<Page>, files: map<string, string>, path: seq<Page>)
    requires Sound(docs, files) && IsPath(docs, path) && path != []
    ensures Sound(docs, files[FileOf(docs, path) := Text(path[|path| - 1])])
  {
    hide IsPath, FileOf, Text;
    var more := files[FileOf(docs, path) := Text(path[|path| - 1])];
    forall f | f in more
      ensures exists q: seq<Page> :: Writes(docs, q, f, more[f])
    {
      if f == FileOf(docs, path) {
        assert Writes(docs, path, f, more[f]);
      } else {
        var q: seq<Page> :| Writes(docs, q, f, files[f]);
        assert Writes(docs, q, f, more[f]);
      }
    }
  }

  // A path that goes on through `d` ends there or goes on through a child of `d`.
  lemma ThroughChild(docs: seq<Page>, path: seq<Page>, d: Page, q: seq<Page>)
    requires IsPath(docs, q) && |q| > |path| && q[..|path|] == path && q[|path|] == d
    ensures q == path + [d] || Below(docs, path + [d], Children(docs, Under(d.id)), q)
  {
    var n := |path| + 1;
    assert q[..n] == path + [d];
    if |q| > n {
      PageAt(docs, q, n);
    }
  }

  lemma BelowMore(docs: seq<Page>, path: seq<Page>, kids: seq<Page>, i: nat, files: map<string, string>)
    requires i < |kids| && AllWritten(docs, path, kids[..i], files)
    requires IsPath(docs, path + [kids[i]]) && FileOf(docs, path + [kids[i]]) in files
    requires AllWritten(docs, path + [kids[i]], Children(docs, Under(kids[i].id)), files)
    ensures AllWritten(docs, path, kids[..i + 1], files)
  {
    hide IsPath, FileOf, Children;
    forall q | Below(docs, path, kids[..i + 1], q)
      ensures FileOf(docs, q) in files
    {
      if q[|path|] in kids[..i] {
        assert Below(docs, path, kids[..i], q);
      } else {
        assert kids[..i + 1] == kids[..i] + [kids[i]];
        ThroughChild(docs, path, kids[i], q);
      }
    }
  }

  lemma WrittenStays(docs: seq<Page>, path: seq<Page>, first: seq<Page>, files: map<string, string>, more: map<string, string>)
    requires AllWritten(docs, path, first, files) && files.Keys <= more.Keys
    ensures AllWritten(docs, path, first, more)
  {
    hide Below, FileOf, IsPath;
  }

  class Export {
    const docs: seq<Page>
    var files: map<string, string>

    constructor (docs: seq<Page>)
      ensures this.docs == docs && files == map[]
    {
      this.docs, files := docs, map[];
    }

    /** `walk`: writes every page below `parent`, and ends whatever cycles the parent pointers
        make elsewhere. */
    method Walk(parent: Parent, prefix: string, ghost path: seq<Page>)
      requires DistinctIds(docs) && IsPath(docs, path)
      requires parent == ParentAt(path, |path|) && prefix == Folder(NamesAlong(docs, path))
      requires Sound(docs, files)
      modifies this
      ensures Sound(docs, files) && old(files.Keys) <= files.Keys
      ensures AllWritten(docs, path, Children(docs, parent), files)
      decreases |docs| - |path|, 1
    {
      hide *;
      var kids := Children(docs, parent);
      var used: set<string> := {};
      NothingBelow(docs, path, kids, files);
      PathsAreShort(docs, path);
      for i := 0 to |kids|
        invariant used == SetOf(Names(kids[..i]))
        invariant Sound(docs, files) && old(files.Keys) <= files.Keys
        invariant AllWritten(docs, path, kids[..i], files)
      {
        var d := kids[i];
        var slug := FreeName(Slug(d.plain, d.id), used);
        NextName(docs, parent, i, used);
        UsedMore(kids, i, used);
        used := used + {slug};
        ghost var before := files;
        WriteOne(parent, prefix, slug, d, path);
        WrittenStays(docs, path, kids[..i], before, files);
        BelowMore(docs, path, kids, i, files);
      }
      assert kids[..|kids|] == kids;
    }

    // One child: its file, then its own children.
    method WriteOne(parent: Parent, prefix: string, slug: string, d: Page, ghost path: seq<Page>)
      requires DistinctIds(docs) && IsPath(docs, path) && |path| <= |docs|
      requires parent == ParentAt(path, |path|) && prefix == Folder(NamesAlong(docs, path))
      requires d in Children(docs, parent) && slug == NameOf(docs, d)
      requires Sound(docs, files)
      modifies this
      ensures Sound(docs, files) && old(files.Keys) <= files.Keys
      ensures IsPath(docs, path + [d]) && FileOf(docs, path + [d]) in files
      ensures AllWritten(docs, path + [d], Children(docs, Under(d.id)), files)
      decreases |docs| - |path|, 0
    {
      ghost var next := path + [d];
      PathMore(docs, path, d);
      PathsAreShort(docs, next);
      FolderMore(NamesAlong(docs, path), slug, HasChildren(docs, d));
      hide IsPath, DistinctIds, NamesAlong, Sound, AllWritten, Folder, FileName, NameOf, Text, Children;
      SoundMore(docs, files, next);
      if Children(docs, Under(d.id)) != [] {
        files := files[prefix + slug + "/_index.md" := Text(d)];
        Walk(Under(d.id), prefix + slug + "/", next);
      } else {
        files := files[prefix + slug + ".md" := Text(d)];
        NothingBelow(docs, next, [], files);
        assert Children(docs, Under(d.id)) == [][..0];
      }
    }
  }

  lemma NothingBelow(docs: seq<Page>, path: seq<Page>, kids: seq<Page>, files: map<string, string>)
    ensures AllWritten(docs, path, kids[..0], files) && SetOf(Names(kids[..0])) == {}
  {
  }

  // ---- the export

  ghost predicate NoRoot(docs: seq<Page>) {
    forall p <- docs :: p.parent != Root
  }

  lemma NothingIffNoRoot(docs: seq<Page>, files: map<string, string>)
    requires Exported(docs, files)
    ensures files == map[] <==> NoRoot(docs)
  {
    if !NoRoot(docs) {
      var p :| p in docs && p.parent == Root;
      assert Follows(docs, [p], 0) && IsPath(docs, [p]);
      assert FileOf(docs, [p]) in files;
    }
    if files != map[] {
      var f := SomeElement(files.Keys);
      var path: seq<Page> :| Writes(docs, path, f, files[f]);
      PageAt(docs, path, 0);
    }
  }

  function Entry(root: string, file: string): string {
    root + "/" + file
  }

  lemma EntryTellsTheFile(root: string, f: string, g: string)
    requires Entry(root, f) == Entry(root, g)
    ensures f == g
  {
    assert f == Entry(root, f)[|root| + 1..] && g == Entry(root, g)[|root| + 1..];
  }

  // The entries of the archive.
  function Entries(files: map<string, string>, root: string): map<string, string> {
    if files == map[] then map[Entry(root, "README.md") := "# (aucune page)\n"]
    else
      assert forall f, g | f in files && g in files && Entry(root, f) == Entry(root, g) :: f == g by {
        forall f, g | f in files && g in files && Entry(root, f) == Entry(root, g)
          ensures f == g
        {
          EntryTellsTheFile(root, f, g);
        }
      }
      map f | f in files :: Entry(root, f) := files[f]
  }

  /** `build_export`, up to the compression. */
  method BuildExport(docs: seq<Page>, root: string) returns (files: map<string, string>, entries: map<string, string>)
    requires DistinctIds(docs)
    ensures Exported(docs, files) && entries == Entries(files, root)
    ensures files == map[] ==> entries == map[root + "/README.md" := "# (aucune page)\n"]
  {
    var x := new Export(docs);
    assert IsPath(docs, []) && NamesAlong(docs, []) == [];
    x.Walk(Root, "", []);
    files := x.files;
    AllFromTheRoot(docs, files);
    assert Entry(root, "README.md") == root + "/README.md";
    entries := Entries(files, root);
  }

  lemma AllFromTheRoot(docs: seq<Page>, files: map<string, string>)
    requires Sound(docs, files) && AllWritten(docs, [], Children(docs, Root), files)
    ensures Exported(docs, files)
  {
    hide FileOf;
    forall q | IsPath(docs, q) && q != []
      ensures FileOf(docs, q) in files
    {
      PageAt(docs, q, 0);
      assert q[..0] == [];
      assert Below(docs, [], Children(docs, Root), q);
    }
  }

  /** The archive says what the files say, each under the name of the project, and says
      nothing else. */
  lemma EntriesAreTheFiles(files: map<string, string>, root: string)
    requires files != map[]
    ensures forall f <- files :: root + "/" + f in Entries(files, root) && Entries(files, root)[root + "/" + f] == files[f]
    ensures forall e <- Entries(files, root) :: exists f :: f in files && e == root + "/" + f
    ensures forall f, g | f in files && g in files && Entry(root, f) == Entry(root, g) :: f == g
  {
    assert forall f :: Entry(root, f) == root + "/" + f;
    forall f, g | f in files && g in files && Entry(root, f) == Entry(root, g)
      ensures f == g
    {
      EntryTellsTheFile(root, f, g);
    }
  }

  // ---- one file for each page that a root leads to

  // A chain of parents goes from the page up to a root.
  ghost predicate Reached(docs: seq<Page>, p: Page) {
    exists path: seq<Page> :: LeadsTo(docs, path, p)
  }

  predicate LeadsTo(docs: seq<Page>, path: seq<Page>, p: Page) {
    IsPath(docs, path) && path != [] && path[|path| - 1] == p
  }

  ghost function Place(docs: seq<Page>, p: Page): string
    requires Reached(docs, p)
  {
    var path: seq<Page> :| LeadsTo(docs, path, p);
    FileOf(docs, path)
  }

  lemma PlaceOfPath(docs: seq<Page>, path: seq<Page>, p: Page)
    requires DistinctIds(docs) && LeadsTo(docs, path, p)
    ensures Reached(docs, p) && Place(docs, p) == FileOf(docs, path)
  {
    var other: seq<Page> :| LeadsTo(docs, other, p) && Place(docs, p) == FileOf(docs, other);
    assert LeadsTo(docs, other, p);
    assert IsPath(docs, other);
    OnePathEach(docs, path, other);
  }

  /** Each page that a root leads to has one file, its own text in it; two pages never have
      the same; and there is no other file. */
  lemma OneFileEach(docs: seq<Page>, files: map<string, string>)
    requires DistinctIds(docs) && Exported(docs, files)
    ensures forall p | p in docs && Reached(docs, p) :: Place(docs, p) in files && files[Place(docs, p)] == Text(p)
    ensures forall p, q | Reached(docs, p) && Reached(docs, q) && Place(docs, p) == Place(docs, q) :: p == q
    ensures forall f <- files :: exists p :: p in docs && Reached(docs, p) && Place(docs, p) == f
  {
    hide IsPath, FileOf, Text, DistinctIds;
    forall p | p in docs && Reached(docs, p)
      ensures Place(docs, p) in files && files[Place(docs, p)] == Text(p)
    {
      var path: seq<Page> :| LeadsTo(docs, path, p);
      PlaceOfPath(docs, path, p);
      var q: seq<Page> :| Writes(docs, q, FileOf(docs, path), files[FileOf(docs, path)]);
      DistinctFiles(docs, path, q);
    }
    forall p, q | Reached(docs, p) && Reached(docs, q) && Place(docs, p) == Place(docs, q)
      ensures p == q
    {
      var a: seq<Page> :| LeadsTo(docs, a, p);
      var b: seq<Page> :| LeadsTo(docs, b, q);
      PlaceOfPath(docs, a, p);
      PlaceOfPath(docs, b, q);
      DistinctFiles(docs, a, b);
    }
    forall f | f in files
      ensures exists p :: p in docs && Reached(docs, p) && Place(docs, p) == f
    {
      var path: seq<Page> :| Writes(docs, path, f, files[f]);
      var p := path[|path| - 1];
      assert LeadsTo(docs, path, p);
      PageAt(docs, path, |path| - 1);
      PlaceOfPath(docs, path, p);
    }
  }

  // ---- unpacking

  /** Such a pair of titles exists: a leaf `x` and a page `x.md` with a child. The file of
      the first one is where the second one needs its folder. */
  lemma UnpackingCanCollide() returns (docs: seq<Page>, p: seq<Page>, q: seq<Page>)
    ensures DistinctIds(docs) && IsPath(docs, p) && IsPath(docs, q) && p != [] && q != []
    ensures FileOf(docs, p) + "/" <= FileOf(docs, q)
  {
    var leaf, folder := Page(1, Root, "x", "x", ""), Page(2, Root, "x.md", "x.md", "");
    var child := Page(3, Under(2), "y", "y", "");
    hide *;
    Collide(leaf, folder, child);
    docs, p, q := [leaf, folder, child], [leaf], [folder, child];
  }

  lemma ThreeIds(a: Page, b: Page, c: Page)
    requires a.id != b.id && a.id != c.id && b.id != c.id
    ensures DistinctIds([a, b, c])
  {
  }

  lemma Collide(leaf: Page, folder: Page, child: Page)
    requires leaf.plain == "x" && folder.plain == "x.md" && leaf.id != folder.id && leaf.id != child.id && folder.id != child.id
    requires leaf.parent == Root && folder.parent == Root && child.parent == Under(folder.id)
    ensures
      var docs := [leaf, folder, child];
      && DistinctIds(docs) && IsPath(docs, [leaf]) && IsPath(docs, [folder, child])
      && FileOf(docs, [leaf]) + "/" <= FileOf(docs, [folder, child])
  {
    var docs := [leaf, folder, child];
    hide *;
    TwoNames(leaf, folder);
    ThreeIds(leaf, folder, child);
    CollideByName(docs, leaf, folder, child, "x");
  }

  lemma CollideByName(docs: seq<Page>, leaf: Page, folder: Page, child: Page, name: string)
    requires docs == [leaf, folder, child] && DistinctIds(docs)
    requires leaf.parent == Root && folder.parent == Root && child.parent == Under(folder.id)
    requires Names([leaf, folder]) == [name, name + ".md"]
    ensures IsPath(docs, [leaf]) && IsPath(docs, [folder, child])
    ensures FileOf(docs, [leaf]) + "/" <= FileOf(docs, [folder, child])
  {
    var p, q := [leaf], [folder, child];
    assert leaf == docs[0] && folder == docs[1] && child == docs[2];
    assert Follows(docs, p, 0) && Follows(docs, q, 0) && Follows(docs, q, 1);
    var kids := [leaf, folder];
    ChildrenOfThree(docs, leaf, folder, child);
    hide Names, IndexIn, Children, NameOf, FileOf, NamesAlong;
    NameWithIndex(docs, leaf);
    NameWithIndex(docs, folder);
    IndexOfDistinct(kids, 0);
    IndexOfDistinct(kids, 1);
    PageAt(docs, p, 0);
    PageAt(docs, q, 0);
    FileInTheWayIff(docs, p, q);
  }

  lemma ChildrenOfThree(docs: seq<Page>, leaf: Page, folder: Page, child: Page)
    requires docs == [leaf, folder, child] && DistinctIds(docs)
    requires leaf.parent == Root && folder.parent == Root && child.parent == Under(folder.id)
    ensures Children(docs, Root) == [leaf, folder] && !HasChildren(docs, leaf)
  {
    assert leaf == docs[0] && folder == docs[1] && child == docs[2];
    assert docs[1..] == [folder, child] && docs[1..][1..] == [child] && [child][1..] == [];
    assert Children([child], Root) == [];
    assert Children([folder, child], Root) == [folder];
    if HasChildren(docs, leaf) {
      assert Children(docs, Under(leaf.id))[0] in docs;
    }
  }

  lemma TwoNames(leaf: Page, folder: Page)
    requires leaf.plain == "x" && folder.plain == "x.md"
    ensures Names([leaf, folder]) == ["x", "x" + ".md"]
  {
    PlainSlug(leaf.plain, leaf.id);
    PlainSlug(folder.plain, folder.id);
    assert "x.md" == "x" + ".md" && "x.md" != "x";
    hide Slug;
    DifferentSlugs(leaf, folder);
  }

  lemma DifferentSlugs(p: Page, q: Page)
    requires Slug(p.plain, p.id) != Slug(q.plain, q.id)
    ensures Names([p, q]) == [Slug(p.plain, p.id), Slug(q.plain, q.id)]
  {
    hide Slug;
    assert [p, q][..1] == [p] && [p][..0] == [];
    assert Names([]) == [] && Names([p]) == [Slug(p.plain, p.id)];
  }
}
