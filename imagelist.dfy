/**
 * App.GetListOfImages of app.go: walk every root directory in order and list
 * each non-directory entry as "{root index}/{path relative to the root}",
 * which is the address the asset handler serves.
 */
module ImageList {
  import opened Wrappers
  import Strconv
  import Strings
  import FilePath
  import AssetHandler

  /**
   * An entry of a directory tree: a non-directory (a file, a symbolic link,
   * ...), or a directory with the entries os.ReadDir returned for it;
   * listError marks a directory whose listing failed, in which case
   * children are the entries read before the failure.
   */
  datatype Node =
    | File(name: string)
    | Dir(name: string, listError: bool, children: seq<Node>)

  /**
   * What filepath.WalkDir meets at a root path: the tree, or None when os.Lstat
   * of the root fails. walkError is whether WalkDir returned an error for it.
   */
  datatype Root = Root(top: Option<Node>, walkError: bool)

  /**
   * One call of the walk callback: with an error, or for an entry, with what
   * filepath.Rel(root, path) returns for it (None for an error).
   */
  datatype Call = Failed | Visit(isDir: bool, rel: Option<string>)

  /** filepath.Rel of an entry reached through the given names: "." for the root itself. */
  function RelPath(names: seq<string>): string {
    if names == [] then "." else Strings.Join(names)
  }

  /**
   * The callback calls WalkDir makes for node n, reached through names, and
   * everything below it, in lexical pre-order: the entry itself, a second call
   * with the error if its listing failed, then each child.
   */
  function Walk(n: Node, names: seq<string>): (calls: seq<Call>)
    ensures |calls| > 0 && calls[0] == Visit(n.Dir?, Some(RelPath(names)))
    ensures forall k :: 0 <= k < |calls| && calls[k].Visit? ==> calls[k].rel.Some?
    decreases n
  {
    match n
    case File(_) => [Visit(false, Some(RelPath(names)))]
    case Dir(_, listError, children) =>
      [Visit(true, Some(RelPath(names)))] + (if listError then [Failed] else []) + WalkAll(children, names)
  }

  /** The calls for sibling nodes below names, one after the other. */
  function WalkAll(ns: seq<Node>, names: seq<string>): (calls: seq<Call>)
    ensures forall k :: 0 <= k < |calls| && calls[k].Visit? ==> calls[k].rel.Some?
    ensures ns != [] ==> |calls| > 0 && calls[0] == Visit(ns[0].Dir?, Some(RelPath(names + [ns[0].name])))
    decreases ns
  {
    if ns == [] then [] else Walk(ns[0], names + [ns[0].name]) + WalkAll(ns[1..], names)
  }

  /**
   * The directory trees at the paths that exist: WalkDir at a path outside
   * the map finds nothing, as when os.Lstat fails.
   */
  type FileSystem = map<string, Root>

  function RootAt(fs: FileSystem, dir: string): Root {
    if dir in fs then fs[dir] else Root(None, false)
  }

  /** The calls for a root: a single failed call when the root cannot be stat'ed. */
  function RootCalls(r: Root): seq<Call> {
    match r.top
    case None => [Failed]
    case Some(n) => Walk(n, [])
  }

  /** Every element of the tree below the root has a name that Clean keeps. */
  predicate WellNamed(n: Node)
    decreases n
  {
    match n
    case File(_) => true
    case Dir(_, _, children) =>
      forall k :: 0 <= k < |children| ==> FilePath.Plain(children[k].name) && WellNamed(children[k])
  }

  predicate WellNamedRoot(r: Root) {
    r.top.Some? ==> WellNamed(r.top.value)
  }

  /**
   * The names leading to each non-directory entry at or below n, in the order
   * of the walk.
   */
  function Files(n: Node, names: seq<string>): (paths: seq<seq<string>>)
    ensures forall k :: 0 <= k < |paths| ==> names <= paths[k]
    ensures FilePath.AllPlain(names) && WellNamed(n) ==>
              forall k :: 0 <= k < |paths| ==> FilePath.AllPlain(paths[k])
    decreases n
  {
    match n
    case File(_) => [names]
    case Dir(_, _, children) => FilesAll(children, names)
  }

  function FilesAll(ns: seq<Node>, names: seq<string>): (paths: seq<seq<string>>)
    ensures forall k :: 0 <= k < |paths| ==> names <= paths[k]
    ensures FilePath.AllPlain(names) && (forall k :: 0 <= k < |ns| ==> FilePath.Plain(ns[k].name) && WellNamed(ns[k])) ==>
              forall k :: 0 <= k < |paths| ==> FilePath.AllPlain(paths[k])
    decreases ns
  {
    if ns == [] then []
    else
      var first := Files(ns[0], names + [ns[0].name]);
      var rest := FilesAll(ns[1..], names);
      first + rest
  }

  function RootFiles(r: Root): seq<seq<string>> {
    match r.top
    case None => []
    case Some(n) => Files(n, [])
  }

  /** filepath.Join(strconv.Itoa(i), rel): the address of an entry of root i. */
  function Tag(i: nat, rel: string): (address: string)
    ensures address != "" && address[0] != '/'
  {
    FilePath.Join(Strconv.Itoa(i), rel)
  }

  /**
   * The walk callback for root i: a call with an error is skipped, a
   * directory adds nothing, a failed Rel is skipped, and any other entry adds
   * its tagged relative path.
   */
  function Callback(i: nat, c: Call): (image: Option<string>)
    ensures image.Some? <==> c.Visit? && !c.isDir && c.rel.Some?
    ensures image.Some? ==> image.value == Tag(i, c.rel.value)
  {
    match c
    case Failed => None
    case Visit(isDir, rel) =>
      if isDir then None
      else
        match rel
        case None => None
        case Some(r) => Some(Tag(i, r))
  }

  function Appended(image: Option<string>): seq<string> {
    if image.Some? then [image.value] else []
  }

  /** What the callback of root i appends over a sequence of calls. */
  function Collect(i: nat, calls: seq<Call>): seq<string> {
    if calls == [] then []
    else Collect(i, calls[..|calls| - 1]) + Appended(Callback(i, calls[|calls| - 1]))
  }

  /**
   * The images of the first n roots, root by root: the address of each
   * non-directory entry of each root, in walk order.
   */
  function Listed(dirs: seq<string>, fs: FileSystem, n: nat): seq<string>
    requires n <= |dirs|
  {
    if n == 0 then [] else Listed(dirs, fs, n - 1) + Tags(n - 1, RootFiles(RootAt(fs, dirs[n - 1])))
  }

  /** The walk of one of the first n roots reported an error. */
  predicate FailsAmong(dirs: seq<string>, fs: FileSystem, n: nat)
    requires n <= |dirs|
  {
    n > 0 && (FailsAmong(dirs, fs, n - 1) || RootAt(fs, dirs[n - 1]).walkError)
  }

  /** Some root's walk reported an error. */
  predicate WalkFails(dirs: seq<string>, fs: FileSystem) {
    FailsAmong(dirs, fs, |dirs|)
  }

  /**
   * The result of GetListOfImages for the roots dirs, where RootAt(fs, dir) is
   * what WalkDir meets at dir: nothing at all if any walk reports an error, else
   * the images of every root, root by root.
   */
  function ListOfImages(dirs: seq<string>, fs: FileSystem): (images: seq<string>)
    ensures (exists k :: 0 <= k < |dirs| && RootAt(fs, dirs[k]).walkError) ==> images == []
    ensures (forall k :: 0 <= k < |dirs| ==> !RootAt(fs, dirs[k]).walkError) ==> images == Listed(dirs, fs, |dirs|)
  {
    WalkFailsIff(dirs, fs, |dirs|);
    if WalkFails(dirs, fs) then [] else Listed(dirs, fs, |dirs|)
  }

  /**
   * App.GetListOfImages, with the settings' ImageDirectories as dirs: walk
   * the roots in order, and give up with nothing as soon as a walk reports an
   * error.
   */
  method GetListOfImages(imageDirectories: seq<string>, fs: FileSystem) returns (images: seq<string>)
    ensures images == ListOfImages(imageDirectories, fs)
  {
    images := [];
    var i := 0;
    while i < |imageDirectories|
      invariant 0 <= i <= |imageDirectories|
      invariant !FailsAmong(imageDirectories, fs, i)
      invariant images == Listed(imageDirectories, fs, i)
    {
      var root := RootAt(fs, imageDirectories[i]);
      images := WalkRoot(i, root, images);
      if root.walkError {
        FailsAmongGrows(imageDirectories, fs, i + 1, |imageDirectories|);
        images := [];
        return;
      }
      i := i + 1;
    }
  }

  /** Once a walk has failed, it stays failed over more roots. */
  lemma {:induction false} FailsAmongGrows(dirs: seq<string>, fs: FileSystem, m: nat, n: nat)
    requires m <= n <= |dirs|
    requires FailsAmong(dirs, fs, m)
    ensures FailsAmong(dirs, fs, n)
    decreases n
  {
    if n > m {
      FailsAmongGrows(dirs, fs, m, n - 1);
    }
  }

  /** A walk fails exactly when the walk of some root reports an error. */
  lemma {:induction false} WalkFailsIff(dirs: seq<string>, fs: FileSystem, n: nat)
    requires n <= |dirs|
    ensures FailsAmong(dirs, fs, n) <==> exists k :: 0 <= k < n && RootAt(fs, dirs[k]).walkError
    decreases n
  {
    if n > 0 {
      WalkFailsIff(dirs, fs, n - 1);
    }
  }

  /**
   * The walk of root i with the callback that appends to images: one callback
   * call per iteration.
   */
  method WalkRoot(i: nat, root: Root, images: seq<string>) returns (result: seq<string>)
    ensures result == images + Tags(i, RootFiles(root))
  {
    result := images;
    var calls := RootCalls(root);
    var k := 0;
    while k < |calls|
      invariant 0 <= k <= |calls|
      invariant result == images + Collect(i, calls[..k])
    {
      var image := Callback(i, calls[k]);
      if image.Some? {
        result := result + [image.value];
      }
      CollectStep(i, calls, k);
      k := k + 1;
    }
    assert calls[..k] == calls;
    RootImages(i, root);
  }

  /** One more call appends what the callback returns for it. */
  lemma CollectStep(i: nat, calls: seq<Call>, k: nat)
    requires k < |calls|
    ensures Collect(i, calls[..k + 1]) == Collect(i, calls[..k]) + Appended(Callback(i, calls[k]))
  {
    assert calls[..k + 1][..k] == calls[..k];
  }

  /** The callback appends over a concatenation what it appends over each part. */
  lemma {:induction false} CollectConcat(i: nat, a: seq<Call>, b: seq<Call>)
    ensures Collect(i, a + b) == Collect(i, a) + Collect(i, b)
    decreases |b|
  {
    if b == [] {
      assert a + b == a;
    } else {
      var b' := b[..|b| - 1];
      assert (a + b)[..|a + b| - 1] == a + b';
      assert (a + b)[|a + b| - 1] == b[|b| - 1];
      CollectConcat(i, a, b');
    }
  }

  /** The addresses of root i for a list of name paths. */
  function Tags(i: nat, paths: seq<seq<string>>): (tags: seq<string>)
    ensures |tags| == |paths|
  {
    if paths == [] then [] else [Tag(i, RelPath(paths[0]))] + Tags(i, paths[1..])
  }

  /** Every address in Tags is that of one of the paths. */
  lemma {:induction false} TagsMember(i: nat, paths: seq<seq<string>>, image: string)
    requires image in Tags(i, paths)
    ensures exists p :: p in paths && image == Tag(i, RelPath(p))
  {
    if image != Tag(i, RelPath(paths[0])) {
      TagsMember(i, paths[1..], image);
      var p :| p in paths[1..] && image == Tag(i, RelPath(p));
      assert p in paths;
    }
  }

  /** The address of every path is in Tags. */
  lemma {:induction false} TagsInclude(i: nat, paths: seq<seq<string>>, p: seq<string>)
    requires p in paths
    ensures Tag(i, RelPath(p)) in Tags(i, paths)
  {
    if p != paths[0] {
      TagsInclude(i, paths[1..], p);
    }
  }

  /** The walk of a tree appends exactly the addresses of its non-directory entries, in walk order. */
  lemma {:induction false} CollectWalk(i: nat, n: Node, names: seq<string>)
    ensures Collect(i, Walk(n, names)) == Tags(i, Files(n, names))
    decreases n
  {
    match n
    case File(_) =>
      CollectFile(i, RelPath(names));
    case Dir(_, listError, children) =>
      CollectDirectory(i, RelPath(names), listError, WalkAll(children, names));
      CollectWalkAll(i, children, names);
  }

  /** A non-directory entry appends its address. */
  lemma CollectFile(i: nat, rel: string)
    ensures Collect(i, [Visit(false, Some(rel))]) == [Tag(i, rel)]
  {
    assert [Visit(false, Some(rel))][..0] == [];
  }

  /** A directory, and the error of its listing, append nothing. */
  lemma CollectDirectory(i: nat, rel: string, listError: bool, below: seq<Call>)
    ensures Collect(i, [Visit(true, Some(rel))] + (if listError then [Failed] else []) + below) == Collect(i, below)
  {
    var head := [Visit(true, Some(rel))];
    var error: seq<Call> := if listError then [Failed] else [];
    CollectConcat(i, head + error, below);
    CollectConcat(i, head, error);
    assert Collect(i, head) == [] by {
      assert head[..0] == [];
    }
    assert Collect(i, error) == [] by {
      if listError {
        assert error[..0] == [];
      }
    }
  }

  lemma {:induction false} CollectWalkAll(i: nat, ns: seq<Node>, names: seq<string>)
    ensures Collect(i, WalkAll(ns, names)) == Tags(i, FilesAll(ns, names))
    decreases ns
  {
    if ns != [] {
      CollectConcat(i, Walk(ns[0], names + [ns[0].name]), WalkAll(ns[1..], names));
      CollectWalk(i, ns[0], names + [ns[0].name]);
      CollectWalkAll(i, ns[1..], names);
      TagsConcat(i, Files(ns[0], names + [ns[0].name]), FilesAll(ns[1..], names));
    }
  }

  /** The addresses of a concatenation are those of each part. */
  lemma {:induction false} TagsConcat(i: nat, a: seq<seq<string>>, b: seq<seq<string>>)
    ensures Tags(i, a + b) == Tags(i, a) + Tags(i, b)
    decreases |a|
  {
    if a != [] {
      var first := [Tag(i, RelPath(a[0]))];
      assert (a + b)[0] == a[0] && (a + b)[1..] == a[1..] + b;
      assert Tags(i, a + b) == first + Tags(i, a[1..] + b);
      TagsConcat(i, a[1..], b);
      assert Tags(i, a) == first + Tags(i, a[1..]);
    } else {
      assert a + b == b;
    }
  }

  /** A root contributes the addresses of its non-directory entries, and nothing if it cannot be stat'ed. */
  lemma RootImages(i: nat, r: Root)
    ensures Collect(i, RootCalls(r)) == Tags(i, RootFiles(r))
  {
    match r.top
    case None =>
      assert Collect(i, [Failed]) == Collect(i, []) + Appended(Callback(i, Failed));
    case Some(n) =>
      CollectWalk(i, n, []);
  }

  /**
   * Roots are listed in order: the images of the roots before m, then those
   * of root m, come first in the images of any longer run of roots.
   */
  lemma {:induction false} RootOrder(dirs: seq<string>, fs: FileSystem, m: nat, n: nat)
    requires m < n <= |dirs|
    ensures Listed(dirs, fs, m) + Tags(m, RootFiles(RootAt(fs, dirs[m]))) <= Listed(dirs, fs, n)
    decreases n
  {
    if m < n - 1 {
      RootOrder(dirs, fs, m, n - 1);
    }
  }

  /** Every image listed is the address of a non-directory entry of one of the roots. */
  lemma {:induction false} ListedImage(dirs: seq<string>, fs: FileSystem, n: nat, image: string)
    requires n <= |dirs|
    requires image in Listed(dirs, fs, n)
    ensures exists i: nat, p :: i < n && p in RootFiles(RootAt(fs, dirs[i])) && image == Tag(i, RelPath(p))
    decreases n
  {
    var before := Listed(dirs, fs, n - 1);
    var files := RootFiles(RootAt(fs, dirs[n - 1]));
    if image in before {
      ListedImage(dirs, fs, n - 1, image);
      var i: nat, p :| i < n - 1 && p in RootFiles(RootAt(fs, dirs[i])) && image == Tag(i, RelPath(p));
      assert i < n;
    } else {
      TagsMember(n - 1, files, image);
    }
  }

  /** Every non-directory entry of every root is listed. */
  lemma ListsEveryFile(dirs: seq<string>, fs: FileSystem, n: nat, i: nat, p: seq<string>)
    requires i < n <= |dirs|
    requires p in RootFiles(RootAt(fs, dirs[i]))
    ensures Tag(i, RelPath(p)) in Listed(dirs, fs, n)
  {
    var files := RootFiles(RootAt(fs, dirs[i]));
    var image := Tag(i, RelPath(p));
    var upTo := Listed(dirs, fs, i) + Tags(i, files);
    TagsInclude(i, files, p);
    InAppended(image, Listed(dirs, fs, i), Tags(i, files));
    RootOrder(dirs, fs, i, n);
    InPrefix(image, upTo, Listed(dirs, fs, n));
  }

  lemma InAppended(x: string, a: seq<string>, b: seq<string>)
    requires x in b
    ensures x in a + b
  {
  }

  lemma InPrefix(x: string, prefix: seq<string>, s: seq<string>)
    requires prefix <= s && x in prefix
    ensures x in s
  {
    var k :| 0 <= k < |prefix| && prefix[k] == x;
    assert s[k] == x;
  }

  /** A root index renders as a plain path element without a dot. */
  lemma IndexPlain(i: nat)
    ensures FilePath.Plain(Strconv.Itoa(i)) && '.' !in Strconv.Itoa(i)
  {
    Strconv.DigitsCorrect(i);
  }

  /** The address of an entry below root i: the index, "/", then the names joined by "/". */
  lemma EntryAddress(i: nat, p: seq<string>)
    requires p != [] && FilePath.AllPlain(p)
    ensures Tag(i, RelPath(p)) == Strconv.Itoa(i) + "/" + Strings.Join(p)
    ensures FilePath.Ext(Tag(i, RelPath(p))) == FilePath.Ext(Strings.Join(p))
  {
    IndexPlain(i);
    FilePath.JoinPlain(Strconv.Itoa(i), p);
    FilePath.ExtAfterSeparator(Strconv.Itoa(i), Strings.Join(p));
  }

  /** The address of a root that is itself a non-directory: the bare index, without extension. */
  lemma RootEntryAddress(i: nat)
    ensures Tag(i, RelPath([])) == Strconv.Itoa(i)
    ensures FilePath.Ext(Tag(i, RelPath([]))) == ""
  {
    IndexPlain(i);
    FilePath.JoinDot(Strconv.Itoa(i));
    ExtOfIndex(Strconv.Itoa(i));
  }

  /** A path with no dot has no extension. */
  lemma ExtOfIndex(path: string)
    requires '.' !in path
    ensures FilePath.Ext(path) == ""
  {
    FilePath.ExtIff(path);
  }

  /**
   * The address of an entry below root i, a path of plain names ending in
   * one with an extension, is served from that root under that path.
   */
  lemma EntryAddressRoutes(h: AssetHandler.LocalAssetHandler, i: nat, p: seq<string>,
                           query: AssetHandler.Query, notExist: string -> bool)
    requires i < |h.directories| && i <= Strconv.IntMax
    requires p != [] && FilePath.AllPlain(p) && FilePath.Ext(Strings.Join(p)) != ""
    ensures AssetHandler.Route(h, "/" + Tag(i, RelPath(p)), query, notExist)
         == AssetHandler.Resolve(h.directories[i], Strings.Join(p), query, notExist)
    ensures AssetHandler.RouteIntended(h, "/" + Tag(i, RelPath(p)), query, notExist)
         == AssetHandler.Route(h, "/" + Tag(i, RelPath(p)), query, notExist)
  {
    EntryParse(i, p);
    AssetHandler.AddressRoutes(h, "/" + Tag(i, RelPath(p)), query, notExist);
  }

  /** The checks read the address of an entry below root i as index i and the entry's path. */
  lemma EntryParse(i: nat, p: seq<string>)
    requires i <= Strconv.IntMax
    requires p != [] && FilePath.AllPlain(p) && FilePath.Ext(Strings.Join(p)) != ""
    ensures AssetHandler.ParsePath("/" + Tag(i, RelPath(p))) == AssetHandler.Address(i, Strings.Join(p))
  {
    var idx := Strconv.Itoa(i);
    var rel := Strings.Join(p);
    EntryPath(i, p);
    IndexPlain(i);
    Strconv.AtoiItoa(i);
    AssetHandler.ParseRoundTrip(idx, rel);
  }

  /** The request path for the address of an entry below root i. */
  lemma EntryPath(i: nat, p: seq<string>)
    requires p != [] && FilePath.AllPlain(p)
    ensures "/" + Tag(i, RelPath(p)) == "/" + Strconv.Itoa(i) + "/" + Strings.Join(p)
  {
    IndexPlain(i);
    FilePath.JoinPlain(Strconv.Itoa(i), p);
  }

  /** The address of a root that is itself a non-directory is not found. */
  lemma RootEntryNotFound(h: AssetHandler.LocalAssetHandler, i: nat,
                          query: AssetHandler.Query, notExist: string -> bool)
    ensures AssetHandler.Route(h, "/" + Tag(i, RelPath([])), query, notExist) == AssetHandler.NotFound
  {
    var idx := Strconv.Itoa(i);
    var path := "/" + Tag(i, RelPath([]));
    assert FilePath.Ext(path) == "" by {
      RootEntryAddress(i);
      LeadingSeparator(idx);
      FilePath.ExtAfterSeparator("", idx);
    }
    FilePath.ExtIff(path);
    AssetHandler.NoExtensionNotFound(h, path, query, notExist);
  }

  lemma LeadingSeparator(s: string)
    ensures "/" + s == "" + "/" + s
  {
  }

  /** The paths listed below a well-named root are made of plain names. */
  lemma ListedPathPlain(r: Root, p: seq<string>)
    requires WellNamedRoot(r) && p in RootFiles(r)
    ensures FilePath.AllPlain(p)
  {
    var files := RootFiles(r);
    var j :| 0 <= j < |files| && files[j] == p;
  }

  /**
   * Every image GetListOfImages lists that has an extension is an address
   * the asset handler serves from the root it was found in, under the path
   * it was found at; this needs the roots to hold only names that Clean
   * keeps.
   */
  lemma ListedImageRoutes(h: AssetHandler.LocalAssetHandler, fs: FileSystem, image: string,
                          query: AssetHandler.Query, notExist: string -> bool)
    requires image in ListOfImages(h.directories, fs)
    requires |h.directories| <= Strconv.IntMax
    requires forall k :: 0 <= k < |h.directories| ==> WellNamedRoot(RootAt(fs, h.directories[k]))
    requires FilePath.Ext(image) != ""
    ensures exists i: nat, p ::
              && i < |h.directories|
              && p in RootFiles(RootAt(fs, h.directories[i]))
              && AssetHandler.Route(h, "/" + image, query, notExist)
                 == AssetHandler.Resolve(h.directories[i], Strings.Join(p), query, notExist)
              && AssetHandler.RouteIntended(h, "/" + image, query, notExist)
                 == AssetHandler.Route(h, "/" + image, query, notExist)
  {
    var dirs := h.directories;
    ListedImage(dirs, fs, |dirs|, image);
    var i: nat, p :| i < |dirs| && p in RootFiles(RootAt(fs, dirs[i])) && image == Tag(i, RelPath(p));
    if p == [] {
      RootEntryAddress(i);
      assert false;
    }
    ListedPathPlain(RootAt(fs, dirs[i]), p);
    EntryAddress(i, p);
    EntryAddressRoutes(h, i, p, query, notExist);
  }
}
