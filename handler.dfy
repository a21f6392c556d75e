/**
 * The local asset handler of main.go: a request path of the form
 * /{directory index}/{relative path}, with an optional width query, is turned
 * into exactly one outcome, and the outcome into a response.
 */
module AssetHandler {
  import opened Wrappers
  import opened Strconv
  import Strings
  import FilePath

  /** r.URL.Query(): every key with its values, in order. */
  type Query = map<string, seq<string>>

  /**
   * localAssetHandler as newLocalAssetHandler builds it: the ordered root
   * directories, captured once and only ever read.
   */
  datatype LocalAssetHandler = LocalAssetHandler(directories: seq<string>)

  /** How far the path checks get with a request path. */
  datatype Address =
    | NoExtension                      // the final element has no '.'
    | NoIndexSegment                   // no '/' at all: the second piece does not exist
    | BadIndex                         // the second piece is not an int
    | Address(index: int, rel: string) // the index and the rest of the path

  /** The one thing a request ends in. */
  datatype Outcome =
    | NotFound
    | ServeFile(file: string)
    | Resize(file: string, width: int)
    | Panic                            // an index out of range at run time

  /**
   * The path checks: a file extension is required, the second '/'-separated
   * piece must be an int, and the pieces after it, joined again by '/', are
   * the relative path.
   */
  function ParsePath(path: string): (a: Address)
    ensures a.Address? ==>
              FilePath.Ext(path) != "" && |Strings.Split(path)| >= 2 && Atoi(Strings.Split(path)[1]) == Some(a.index)
    ensures a.Address? && a.rel != "" ==>
              path == Strings.Split(path)[0] + "/" + Strings.Split(path)[1] + "/" + a.rel
  {
    if FilePath.Ext(path) == "" then NoExtension
    else
      var pieces := Strings.Split(path);
      if |pieces| < 2 then NoIndexSegment
      else
        match Atoi(pieces[1])
        case None => BadIndex
        case Some(index) =>
          SplitRest(path);
          Address(index, Strings.Join(pieces[2..]))
  }

  /** Past its first two pieces, a path is the join of the pieces after them. */
  lemma SplitRest(path: string)
    requires |Strings.Split(path)| >= 2
    ensures var pieces := Strings.Split(path);
            Strings.Join(pieces[2..]) != "" ==> path == pieces[0] + "/" + pieces[1] + "/" + Strings.Join(pieces[2..])
  {
    var pieces := Strings.Split(path);
    Strings.JoinSplit(path);
    if |pieces| > 2 {
      assert pieces[1..][1..] == pieces[2..];
    }
  }

  /** The path checks fail early exactly for a path without extension, or without any '/'. */
  lemma ParsePathFailures(path: string)
    ensures ParsePath(path).NoExtension? <==> !FilePath.HasExtension(path)
    ensures ParsePath(path).NoIndexSegment? <==> FilePath.HasExtension(path) && '/' !in path
  {
    FilePath.ExtIff(path);
  }

  /**
   * The file checks once a root is chosen: the file under the root must not
   * be reported missing; then no width serves the file as it is, a width that
   * parses asks for a resize, and one that does not is not found.
   */
  function Resolve(directory: string, rel: string, query: Query, notExist: string -> bool): (o: Outcome)
    ensures notExist(FilePath.Join(directory, rel)) ==> o == NotFound
    ensures o.ServeFile? || o.Resize? ==> o.file == FilePath.Join(directory, rel) && !notExist(o.file)
    ensures o.ServeFile? <==> !notExist(FilePath.Join(directory, rel)) && "width" !in query
    ensures o.Resize? ==> "width" in query && query["width"] != [] && Atoi(query["width"][0]) == Some(o.width)
    ensures o.Panic? <==> !notExist(FilePath.Join(directory, rel)) && "width" in query && query["width"] == []
  {
    var file := FilePath.Join(directory, rel);
    if notExist(file) then NotFound
    else if "width" in query then
      var values := query["width"];
      if values == [] then Panic
      else
        match Atoi(values[0])
        case None => NotFound
        case Some(width) => Resize(file, width)
    else ServeFile(file)
  }

  /**
   * localAssetHandler.ServeHTTP up to the choice of response. notExist(file)
   * stands for os.IsNotExist of os.Stat(file); any other Stat error lets the
   * request through, as in the source. Only the upper bound of the index is
   * checked, so a negative index reaches the slice and panics.
   */
  function Route(h: LocalAssetHandler, path: string, query: Query, notExist: string -> bool): (o: Outcome)
    ensures o.ServeFile? || o.Resize? ==>
      var a := ParsePath(path);
      && a.Address?
      && 0 <= a.index < |h.directories|
      && o.file == FilePath.Join(h.directories[a.index], a.rel)
      && !notExist(o.file)
    ensures o.ServeFile? ==> "width" !in query
    ensures o.Resize? ==> "width" in query && query["width"] != [] && Atoi(query["width"][0]) == Some(o.width)
  {
    match ParsePath(path)
    case NoExtension => NotFound
    case NoIndexSegment => Panic
    case BadIndex => NotFound
    case Address(index, rel) =>
      if index >= |h.directories| then NotFound
      else if index < 0 then Panic
      else Resolve(h.directories[index], rel, query, notExist)
  }

  /** A path whose final element has no '.' is not found, whatever the roots. */
  lemma NoExtensionNotFound(h: LocalAssetHandler, path: string, query: Query, notExist: string -> bool)
    requires forall k :: 0 <= k < |path| && path[k] == '.' ==> '/' in path[k..]
    ensures Route(h, path, query, notExist) == NotFound
  {
    FilePath.ExtIff(path);
  }

  /** A second piece that Atoi rejects is not found. */
  lemma BadIndexNotFound(h: LocalAssetHandler, path: string, query: Query, notExist: string -> bool)
    requires FilePath.Ext(path) != "" && '/' in path
    requires Atoi(Strings.Split(path)[1]) == None
    ensures Route(h, path, query, notExist) == NotFound
  {
  }

  /**
   * For "/" + idx + "/" + rel with an int idx and an extension in rel, the
   * checks recover the index and exactly rel.
   */
  lemma ParseRoundTrip(idx: string, rel: string)
    requires '/' !in idx && Atoi(idx).Some?
    requires FilePath.Ext(rel) != ""
    ensures ParsePath("/" + idx + "/" + rel) == Address(Atoi(idx).value, rel)
  {
    var path := "/" + idx + "/" + rel;
    FilePath.ExtAfterSeparator("/" + idx, rel);
    SplitAddress(idx, rel);
    ParsedAddress(path, Atoi(idx).value);
  }

  /** The pieces of "/" + idx + "/" + rel: an empty one, idx, then rel's, which join back to rel. */
  lemma SplitAddress(idx: string, rel: string)
    requires '/' !in idx
    ensures var pieces := Strings.Split("/" + idx + "/" + rel);
            |pieces| >= 2 && pieces[1] == idx && Strings.Join(pieces[2..]) == rel
  {
    var path := "/" + idx + "/" + rel;
    var tail := idx + "/" + rel;
    var rest := Strings.Split(rel);
    assert Strings.Split(path) == [""] + Strings.Split(tail) by {
      assert path == "" + "/" + tail;
      Strings.SplitAfterSegment("", tail);
    }
    assert Strings.Split(tail) == [idx] + rest by {
      Strings.SplitAfterSegment(idx, rel);
    }
    assert Strings.Split(path)[2..] == rest;
    Strings.JoinSplit(rel);
  }

  /** The checks pass when there is an extension and the second piece is an int. */
  lemma ParsedAddress(path: string, index: int)
    requires FilePath.Ext(path) != "" && |Strings.Split(path)| >= 2
    requires Atoi(Strings.Split(path)[1]) == Some(index)
    ensures ParsePath(path) == Address(index, Strings.Join(Strings.Split(path)[2..]))
  {
  }

  /** An index at or past the number of roots is not found. */
  lemma IndexTooLargeNotFound(h: LocalAssetHandler, path: string, query: Query, notExist: string -> bool)
    requires ParsePath(path).Address? && ParsePath(path).index >= |h.directories|
    ensures Route(h, path, query, notExist) == NotFound
  {
  }

  /** A negative index passes the only bounds check and panics on the slice access. */
  lemma NegativeIndexPanics(h: LocalAssetHandler, path: string, query: Query, notExist: string -> bool)
    requires ParsePath(path).Address? && ParsePath(path).index < 0
    ensures Route(h, path, query, notExist) == Panic
  {
  }

  /**
   * A request /-1/{rel} panics whenever rel has an extension, whatever the
   * roots, the query and the files: /-1/x.png, for one.
   */
  lemma MinusOnePanics(h: LocalAssetHandler, rel: string, query: Query, notExist: string -> bool)
    requires FilePath.Ext(rel) != ""
    ensures Route(h, "/-1/" + rel, query, notExist) == Panic
  {
    MinusOneAddress(rel);
    NegativeIndexPanics(h, "/-1/" + rel, query, notExist);
  }

  /** The checks read /-1/{rel} as index -1 and relative path rel. */
  lemma MinusOneAddress(rel: string)
    requires FilePath.Ext(rel) != ""
    ensures ParsePath("/-1/" + rel) == Address(-1, rel)
  {
    AtoiMinusOne();
    MinusOnePath(rel);
    ParseRoundTrip("-1", rel);
  }

  lemma MinusOnePath(rel: string)
    ensures "/-1/" + rel == "/" + "-1" + "/" + rel
  {
  }

  lemma ZeroPath(rel: string)
    ensures "/0/" + rel == "/" + "0" + "/" + rel
  {
  }

  lemma ParentPath(name: string)
    ensures "../" + name == ".." + "/" + name
  {
  }

  lemma AtoiMinusOne()
    ensures Atoi("-1") == Some(-1)
  {
    assert Digits(1) == "1";
    assert Itoa(-1) == "-1";
    AtoiItoa(-1);
  }

  /** An address within the roots goes on to the file checks under its root. */
  lemma AddressRoutes(h: LocalAssetHandler, path: string, query: Query, notExist: string -> bool)
    requires ParsePath(path).Address? && 0 <= ParsePath(path).index < |h.directories|
    ensures Route(h, path, query, notExist)
         == Resolve(h.directories[ParsePath(path).index], ParsePath(path).rel, query, notExist)
    ensures RouteIntended(h, path, query, notExist) == Route(h, path, query, notExist)
  {
  }

  /**
   * Nothing keeps the file inside its root: under a root d of one plain
   * element, /0/../{name} is the file name beside d, not below it.
   */
  lemma ParentEscapesRoot(h: LocalAssetHandler, name: string, query: Query, notExist: string -> bool)
    requires |h.directories| > 0 && FilePath.Plain(h.directories[0])
    requires FilePath.Plain(name) && FilePath.Ext(name) != ""
    ensures var rel := "../" + name;
            && Route(h, "/0/" + rel, query, notExist) == Resolve(h.directories[0], rel, query, notExist)
            && FilePath.Join(h.directories[0], rel) == name
  {
    var rel := "../" + name;
    assert FilePath.Ext(rel) != "" by {
      ParentPath(name);
      FilePath.ExtAfterSeparator("..", name);
    }
    IndexZeroAddress(rel);
    AddressRoutes(h, "/0/" + rel, query, notExist);
    ParentElement(h.directories[0], name);
  }

  /** The checks read /0/{rel} as index 0 and relative path rel. */
  lemma IndexZeroAddress(rel: string)
    requires FilePath.Ext(rel) != ""
    ensures ParsePath("/0/" + rel) == Address(0, rel)
  {
    AtoiZero();
    ZeroPath(rel);
    ParseRoundTrip("0", rel);
  }

  lemma AtoiZero()
    ensures Atoi("0") == Some(0)
  {
    assert Itoa(0) == "0";
    AtoiItoa(0);
  }

  /** Clean removes a plain element followed by "..": d/../name is name. */
  lemma ParentElement(d: string, name: string)
    requires FilePath.Plain(d) && FilePath.Plain(name)
    ensures FilePath.Join(d, "../" + name) == name
  {
    var path := d + "/" + ("../" + name);
    ParentPath(name);
    Strings.SplitAfterSegment(d, "../" + name);
    Strings.SplitAfterSegment("..", name);
    Strings.SplitSegment(name);
    assert Strings.Split(path) == [d, "..", name];
    assert FilePath.Reduce([], [d, "..", name], false) == [name] by {
      assert [d, "..", name][1..] == ["..", name];
      assert ["..", name][1..] == [name];
      assert [name][1..] == [];
      assert [d][..0] == [];
      assert FilePath.Reduce([], [d, "..", name], false) == FilePath.Reduce([d], ["..", name], false);
      assert FilePath.Reduce([d], ["..", name], false) == FilePath.Reduce([], [name], false);
      assert FilePath.Reduce([], [name], false) == FilePath.Reduce([name], [], false);
    }
  }

  /** A file reported missing under a valid root is not found. */
  lemma MissingFileNotFound(h: LocalAssetHandler, path: string, query: Query, notExist: string -> bool)
    requires ParsePath(path).Address?
    requires 0 <= ParsePath(path).index < |h.directories|
    requires notExist(FilePath.Join(h.directories[ParsePath(path).index], ParsePath(path).rel))
    ensures Route(h, path, query, notExist) == NotFound
  {
  }

  /** The file under a valid root, if not missing: served as it is when no width is asked for. */
  lemma ServedWithoutWidth(h: LocalAssetHandler, path: string, query: Query, notExist: string -> bool)
    requires ParsePath(path).Address?
    requires 0 <= ParsePath(path).index < |h.directories|
    requires !notExist(FilePath.Join(h.directories[ParsePath(path).index], ParsePath(path).rel))
    requires "width" !in query
    ensures Route(h, path, query, notExist)
         == ServeFile(FilePath.Join(h.directories[ParsePath(path).index], ParsePath(path).rel))
  {
  }

  /** A first width value that Atoi rejects is not found. */
  lemma BadWidthNotFound(h: LocalAssetHandler, path: string, query: Query, notExist: string -> bool)
    requires ParsePath(path).Address?
    requires 0 <= ParsePath(path).index < |h.directories|
    requires !notExist(FilePath.Join(h.directories[ParsePath(path).index], ParsePath(path).rel))
    requires "width" in query && query["width"] != [] && Atoi(query["width"][0]).None?
    ensures Route(h, path, query, notExist) == NotFound
  {
  }

  /** A first width value that Atoi accepts asks for a resize of the file to that width. */
  lemma ResizedWithWidth(h: LocalAssetHandler, path: string, query: Query, notExist: string -> bool)
    requires ParsePath(path).Address?
    requires 0 <= ParsePath(path).index < |h.directories|
    requires !notExist(FilePath.Join(h.directories[ParsePath(path).index], ParsePath(path).rel))
    requires "width" in query && query["width"] != [] && Atoi(query["width"][0]).Some?
    ensures Route(h, path, query, notExist)
         == Resize(FilePath.Join(h.directories[ParsePath(path).index], ParsePath(path).rel),
                   Atoi(query["width"][0]).value)
  {
  }

  /**
   * Route as evidently intended: an index outside the roots, negative ones
   * included, is not found.
   */
  function RouteIntended(h: LocalAssetHandler, path: string, query: Query, notExist: string -> bool): (o: Outcome)
    ensures ParsePath(path).Address? && !(0 <= ParsePath(path).index < |h.directories|) ==> o == NotFound
    ensures Route(h, path, query, notExist) != Panic ==> o == Route(h, path, query, notExist)
    ensures o == Panic ==>
      && Route(h, path, query, notExist) == Panic
      && (ParsePath(path).NoIndexSegment? || ("width" in query && query["width"] == []))
  {
    match ParsePath(path)
    case NoExtension => NotFound
    case NoIndexSegment => Panic
    case BadIndex => NotFound
    case Address(index, rel) =>
      if index < 0 || index >= |h.directories| then NotFound
      else Resolve(h.directories[index], rel, query, notExist)
  }

  /** src.Bounds().Max of a decoded image. */
  datatype Size = Size(width: int, height: int)

  /**
   * The library calls of the resize branch, as the handler sees them:
   * whether os.Open succeeds, what png.Decode yields (None for the nil image
   * of a failed decode, whose error the source ignores), the float64 height
   * formula as an uninterpreted function of (srcHeight, srcWidth, width), and
   * png.Encode of the file rescaled to the given width and height.
   */
  datatype ImageCodec = ImageCodec(
    opens: string -> bool,
    decode: string -> Option<Size>,
    scaledHeight: (int, int, int) -> int,
    encode: (string, int, int) -> Option<seq<bv8>>)

  /** What is written back to the client. */
  datatype Response =
    | NotFoundPage
    | ServedFile(file: string)
    | Png(contentType: string, contentLength: string, body: seq<bv8>)
    | Panicked

  /**
   * The response for an outcome. A resize opens and decodes the file, derives
   * the height from the source's aspect ratio, encodes the rescaled image and
   * sends it with its content type and length; a failed open or encode is not
   * found, and a failed decode dereferences a nil image.
   */
  function Respond(o: Outcome, codec: ImageCodec): (r: Response)
    ensures o.NotFound? ==> r == NotFoundPage
    ensures o.Panic? ==> r == Panicked
    ensures r.ServedFile? <==> o.ServeFile?
    ensures r.ServedFile? ==> r.file == o.file
    ensures o.Resize? && !codec.opens(o.file) ==> r == NotFoundPage
    ensures o.Resize? && codec.opens(o.file) && codec.decode(o.file) == None ==> r == Panicked
    ensures o.Resize? && codec.opens(o.file) && codec.decode(o.file).Some? ==>
      var src := codec.decode(o.file).value;
      match codec.encode(o.file, o.width, codec.scaledHeight(src.height, src.width, o.width))
      case None => r == NotFoundPage
      case Some(body) => r.Png? && r.body == body && r.contentType == "image/png"
    ensures r.Png? ==> o.Resize?
  {
    match o
    case NotFound => NotFoundPage
    case ServeFile(file) => ServedFile(file)
    case Panic => Panicked
    case Resize(file, width) =>
      if !codec.opens(file) then NotFoundPage
      else
        match codec.decode(file)
        case None => Panicked
        case Some(src) =>
          var height := codec.scaledHeight(src.height, src.width, width);
          match codec.encode(file, width, height)
          case None => NotFoundPage
          case Some(body) => Png("image/png", Itoa(|body|), body)
  }

  /** A PNG answer declares as Content-Length exactly the length of its body. */
  lemma ContentLengthMatchesBody(o: Outcome, codec: ImageCodec)
    requires Respond(o, codec).Png? && |Respond(o, codec).body| <= IntMax
    ensures Atoi(Respond(o, codec).contentLength) == Some(|Respond(o, codec).body|)
  {
    AtoiItoa(|Respond(o, codec).body|);
  }

  /**
   * localAssetHandler.ServeHTTP as written: route the request with only the
   * upper bound of the index checked, then respond. A file is handed to
   * http.ServeFile or resized only from a root of the handler, and a
   * negative index panics.
   */
  function ServeHTTP(h: LocalAssetHandler, path: string, query: Query, notExist: string -> bool,
                     codec: ImageCodec): (r: Response)
    ensures r.ServedFile? || r.Png? ==>
      var a := ParsePath(path);
      && a.Address? && 0 <= a.index < |h.directories|
      && !notExist(FilePath.Join(h.directories[a.index], a.rel))
    ensures r.ServedFile? ==>
      r.file == FilePath.Join(h.directories[ParsePath(path).index], ParsePath(path).rel) && "width" !in query
    ensures r.Png? ==> "width" in query && query["width"] != [] && Atoi(query["width"][0]).Some?
    ensures ParsePath(path).Address? && ParsePath(path).index < 0 ==> r == Panicked
  {
    Respond(Route(h, path, query, notExist), codec)
  }

  /**
   * localAssetHandler.ServeHTTP as evidently intended: the same, with the
   * index checked on both sides.
   */
  function ServeHTTPIntended(h: LocalAssetHandler, path: string, query: Query, notExist: string -> bool,
                             codec: ImageCodec): (r: Response)
    ensures ParsePath(path).Address? && !(0 <= ParsePath(path).index < |h.directories|) ==> r == NotFoundPage
    ensures Route(h, path, query, notExist) != Panic ==> r == ServeHTTP(h, path, query, notExist, codec)
  {
    Respond(RouteIntended(h, path, query, notExist), codec)
  }

  /** The request /-1/{rel}, for rel with an extension: a panic as written, not found as intended. */
  lemma MinusOneResponses(h: LocalAssetHandler, rel: string, query: Query, notExist: string -> bool,
                          codec: ImageCodec)
    requires FilePath.Ext(rel) != ""
    ensures ServeHTTP(h, "/-1/" + rel, query, notExist, codec) == Panicked
    ensures ServeHTTPIntended(h, "/-1/" + rel, query, notExist, codec) == NotFoundPage
  {
    MinusOneAddress(rel);
  }
}
