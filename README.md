# Local image asset server: routing and image listing

This project models two pieces of a desktop image viewer.

- **The local asset handler** (`localAssetHandler.ServeHTTP` in `main.go`). It turns a request path `/{directory index}/{relative path}` and an optional `width` query into one outcome: not found, serve the file as it is, or resize it to the width and send it back as PNG.
- **The image listing** (`App.GetListOfImages` in `app.go`). It walks every registered root directory in order and lists each non-directory entry as `{root index}/{path relative to the root}`. That string is the address the asset handler serves.

The handler is a chain of checks over immutable inputs, so it is modelled with datatypes and functions (`AssetHandler`). The listing grows a slice in a loop, so it is modelled as a method with loops and invariants (`ImageList.GetListOfImages`, `ImageList.WalkRoot`). Both are proved against specification functions.

The Go library calls the core depends on are modelled in their own modules:

- `Strconv`: `strconv.Atoi` and `strconv.Itoa` over the 64-bit `int` range.
- `Strings`: `strings.Split` and `strings.Join` on `"/"`.
- `FilePath`: `filepath.Ext`, `filepath.Clean` and the two-element `filepath.Join`, with `/` as the only separator.

The model's inputs stand in for the outside world:

- the directory list of the handler;
- `notExist`, for `os.IsNotExist(os.Stat(file))`;
- an `ImageCodec` of functions, for opening, PNG decoding, the height formula and PNG encoding;
- a `FileSystem` map from root paths to directory trees, for what `filepath.WalkDir` meets.

The cross-module result is `ImageList.ListedImageRoutes`. Every listed image that has an extension is an address the handler parses back to its root index and relative path, and resolves under that root.

The model follows the code. In these places the code behaves in ways a reader might not expect:

- **Negative index.** The comment at main.go:172 says the check is whether the index exists among the directories, so a missing index is meant to be not found, as an index past the end is. The code checks only the upper bound, so a negative index reaches the slice access at main.go:179 and panics (see Findings). `AssetHandler.ServeHTTP` models the code as written; `AssetHandler.ServeHTTPIntended` checks both bounds.
- **Containment.** The code never checks that the file stays inside its root: `filepath.Join` cleans `..` away, so for `/0/../x.png` the handler checks the existence of `x.png` beside root 0 (`AssetHandler.ParentEscapesRoot`). Without a width, that file is only handed to `http.ServeFile`, which turns away a request path with a `..` element on its own. With a width, the file is opened directly by `os.Open` (main.go:196) and resized.
- **Failed decode.** The code drops the error of `png.Decode` (main.go:208) and reads the bounds of the nil image it returns, which panics (`Response.Panicked`).
- **Walk errors.** The code returns nil for the whole call when `WalkDir` reports an error for any root (app.go:53-56), so the images of earlier roots are discarded too (`ImageList.ListOfImages`).
- **Unreadable files.** `WalkDir` never opens files, so an unreadable file is still listed. Only a directory whose listing fails, or a root that cannot be stat'ed, produces an error call, and the callback skips it (app.go:40-42).
- **Listing order.** The code lists roots in order and each tree in walk order (`ImageList.RootOrder`).

## Model

| member | source | states |
|---|---|---|
| Strconv.Atoi | main.go:164 | the text is accepted exactly when it is an optional sign followed by one or more digits whose value is at most IntMax, or IntMax + 1 after a '-'; the result is that value, negated after a '-' |
| Strconv.AtoiPadding | main.go:164 | a '+' sign or a leading zero does not change what Atoi reads: "007", "+7" and "7" all read as 7, and "-07" as "-7" |
| Strconv.Itoa | app.go:49 | the text starts with '-' exactly for a negative number, and is decimal digits otherwise |
| Strconv.ItoaCanonical | main.go:226 | Itoa prints no '+', no leading zero and no "-0" |
| Strconv.AtoiItoa | app.go:49 | every int in range that Itoa renders, Atoi parses back to the same int |
| Strconv.ItoaAtoi | main.go:164 | a canonical decimal text that Atoi accepts is rendered back unchanged by Itoa |
| Strconv.DigitsCorrect | main.go:226 | the decimal rendering of a natural number is all digits, denotes that number and has no leading zero |
| Strings.Split | main.go:164 | the pieces are never empty as a list, contain no '/', and there is more than one exactly when the string has a '/' |
| Strings.Join | main.go:166 | the join begins with the first piece, followed by '/' when there is a second |
| Strings.JoinSplit | main.go:166 | joining the pieces of a split with '/' gives back the string |
| Strings.SplitJoin | main.go:166 | splitting a join of separator-free pieces gives back the pieces |
| Strings.SplitAfterSegment | main.go:164 | a separator-free first piece followed by '/' is split off as the first piece |
| FilePath.Ext | main.go:162 | the extension is a suffix of the path that starts with '.', has no other '.' and no '/' |
| FilePath.ExtIff | main.go:162 | the extension is non-empty exactly when some '.' in the path has no '/' after it |
| FilePath.ExtAfterSeparator | main.go:162 | only the part after the last '/' decides the extension |
| FilePath.Reduce | main.go:180 | the cleaning pass never grows the elements, and from separator-free elements it leaves no empty or "." element and ".." only in a leading run, never in a rooted path |
| FilePath.Clean | main.go:180 | the clean path is never empty and is rooted exactly when the path is |
| FilePath.CleanIdempotent | main.go:180 | cleaning a clean path changes nothing, for every path |
| FilePath.Join | main.go:180 | the join is empty only for two empty elements, and rooted exactly when its first non-empty element is |
| FilePath.CleanPlain | main.go:180 | a relative path of plain elements is its own Clean |
| FilePath.JoinPlain | app.go:49 | joining a plain element with a path of plain elements is concatenation with '/' |
| FilePath.JoinDot | app.go:49 | joining a plain element with "." gives the element |
| AssetHandler.ParsePath | main.go:162-166 | an address is found only for a path with an extension whose second piece Atoi reads as the index, and a non-empty relative path is what follows the second '/' of the path |
| AssetHandler.ParsePathFailures | main.go:162-164 | the checks stop for lack of an extension exactly when the final element has no '.', and for lack of a second piece exactly when there is an extension but no '/' |
| AssetHandler.Route | main.go:154-247 | a served or resized file is the join of an in-range root and the parsed relative path, and is not reported missing; serving happens only without a width key, and resizing only with a first width value that parses to the width |
| AssetHandler.NoExtensionNotFound | main.go:162 | a path whose final element has no '.' is not found, whatever the roots, query and files |
| AssetHandler.BadIndexNotFound | main.go:164-171 | a second piece that Atoi rejects is not found |
| AssetHandler.ParseRoundTrip | main.go:164-166 | for "/" + idx + "/" + rel with idx an int and rel with an extension, the checks recover idx's value and exactly rel |
| AssetHandler.SplitAddress | main.go:164-166 | the second piece of "/" + idx + "/" + rel is idx, and the pieces after it join back to rel |
| AssetHandler.IndexTooLargeNotFound | main.go:173-177 | an index at or past the number of roots is not found |
| AssetHandler.NegativeIndexPanics | main.go:173-179 | a negative index passes the only bounds check and panics on the slice access |
| AssetHandler.MinusOnePanics | main.go:173-179 | /-1/{rel} panics for every rel with an extension, whatever the roots, query and files |
| AssetHandler.AddressRoutes | main.go:173-180 | an index within the roots goes on to the file checks under that root, in the code as written and as corrected alike |
| AssetHandler.ParentEscapesRoot | main.go:164-180 | under a one-element root d, /0/../{name} is routed to the file name beside d, not below it |
| AssetHandler.ParentElement | main.go:180 | joining d with ../{name} cleans to name |
| AssetHandler.Resolve | main.go:180-243 | a file reported missing is not found; otherwise the file is served as it is exactly without a width key, resized only to a first width value that parses, and a width key with no value panics; served and resized files are the join of the root and the relative path |
| AssetHandler.MissingFileNotFound | main.go:180-185 | a file reported missing under a valid root is not found |
| AssetHandler.ServedWithoutWidth | main.go:235-238 | an existing file under a valid root, without a width key, is served as it is |
| AssetHandler.BadWidthNotFound | main.go:187-194 | a first width value that Atoi rejects is not found |
| AssetHandler.ResizedWithWidth | main.go:187-214 | a first width value that Atoi accepts asks for a resize of the file to that width |
| AssetHandler.RouteIntended | main.go:173-179 | the corrected routing: an index outside the roots on either side is not found; it agrees with Route wherever Route does not panic; it panics only for a path without '/' or an empty width list |
| AssetHandler.Respond | main.go:187-238 | not found stays not found and a panic stays a panic; a file is handed to http.ServeFile exactly for a serve outcome; a resize whose file does not open is not found, one whose decode fails panics, one whose encoding fails is not found, and one whose encoding succeeds is a PNG answer of type image/png whose body is that encoding of the file scaled to the width and the derived height; a PNG answer comes only from a resize |
| AssetHandler.ContentLengthMatchesBody | main.go:224-228 | a PNG answer of at most IntMax bytes declares a Content-Length that Atoi reads back as exactly the length of its body |
| AssetHandler.ServeHTTP | main.go:154-247 | the code as written: a file is handed to http.ServeFile or resized only from a root of the handler, under the parsed relative path, and only when it is not reported missing; it is handed over only without a width key, resized only with a first width value that parses; a negative index panics |
| AssetHandler.ServeHTTPIntended | main.go:172-179 | the corrected handler: an index outside the roots on either side is not found, and it answers as the code does wherever the routing as written does not panic |
| AssetHandler.MinusOneResponses | main.go:173-179 | the request /-1/{rel}, for rel with an extension, panics as written and is not found as intended |
| ImageList.Walk | app.go:39 | the walk calls the callback for an entry before anything below it, and every call for an entry comes with a relative path, so the Rel failure branch is never taken |
| ImageList.WalkAll | app.go:39 | the same for sibling entries, the first of which is called first |
| ImageList.Tag | app.go:49 | the address of an entry is a non-empty relative path |
| ImageList.Callback | app.go:39-52 | the callback adds an image exactly for a non-directory entry whose Rel succeeded, and the image is Join(Itoa(i), rel) |
| ImageList.Files | app.go:43 | every listed path of a tree extends the path leading to it, and is made of plain names when the tree's names are plain |
| ImageList.ListOfImages | app.go:36-59 | a walk error at any root yields the empty listing, discarding the images of earlier roots; without walk errors the listing is the images of every root, in root order |
| ImageList.GetListOfImages | app.go:36-59 | the result is ListOfImages: nothing if some root's walk reports an error, otherwise the images of every root, root by root (none for no roots) |
| ImageList.WalkRoot | app.go:39-52 | one walk appends exactly the addresses of the root's non-directory entries, in walk order |
| ImageList.FailsAmongGrows | app.go:53-56 | once a root's walk has failed, the whole listing has failed |
| ImageList.WalkFailsIff | app.go:53-56 | the listing fails exactly when the walk of some root reports an error |
| ImageList.CollectConcat | app.go:39-52 | the callback appends over a concatenation of calls what it appends over each part |
| ImageList.CollectWalk | app.go:40-49 | over the walk of a tree, the callback appends exactly the addresses of its non-directory entries: error calls and directories add nothing |
| ImageList.CollectWalkAll | app.go:40-49 | the same for a sequence of sibling trees |
| ImageList.RootImages | app.go:39-52 | a root contributes the addresses of its non-directory entries, and nothing if it cannot be stat'ed |
| ImageList.TagsMember | app.go:49 | every address of a root's list is the address of one of its paths |
| ImageList.TagsInclude | app.go:49 | the address of every path of a root is in its list |
| ImageList.TagsConcat | app.go:49 | the addresses of a concatenation of paths are those of each part |
| ImageList.RootOrder | app.go:38 | the images of the roots before m, then those of root m, form a prefix of the images of any longer run of roots |
| ImageList.ListedImage | app.go:45-49 | every listed image is Join(Itoa(i), rel) for a non-directory entry of some root i |
| ImageList.ListsEveryFile | app.go:43-49 | every non-directory entry of every root is listed |
| ImageList.EntryAddress | app.go:49 | the address of an entry below root i is Itoa(i), '/', then its names joined by '/', with the extension of the entry's path |
| ImageList.RootEntryAddress | app.go:49 | the address of a root that is itself a file is the bare index, without extension |
| ImageList.EntryAddressRoutes | main.go:162-180 | the address of an entry with plain names and an extension, below root i, is routed to the file checks under root i for that entry's path |
| ImageList.RootEntryNotFound | main.go:162 | the address of a root that is itself a file is not found |
| ImageList.ListedPathPlain | app.go:45 | the paths listed below a well-named root are made of plain names |
| ImageList.ListedImageRoutes | main.go:162-180 | every listed image with an extension is routed to the file checks under the root it was found in, for the path it was found at, when the roots hold only names that Clean keeps |

## Left out

- A `ServedFile(file)` response means the file is handed to `http.ServeFile` (main.go:237). What that function does next is not modelled: its own refusal of request paths with a `..` element, its directory listings and its redirects.
- The resize pipeline can panic in more places than `ImageCodec` expresses. `ImageCodec.encode` stands for `image.NewRGBA`, `draw.CatmullRom.Scale` and `png.Encode` together, and a panic among them is not modelled, for example `image.NewRGBA` on huge dimensions (`?width=4611686018427387904`) or a source image of width 0 in the height formula.
- Logging (`fmt.Println`) and the `http.ResponseWriter`. The response is the `Response` value: `http.NotFound`, `http.ServeFile` and the PNG answer become cases of that datatype. A failed `w.Write` after the headers (main.go:228-233) is not modelled.
- `os.Stat`, `os.Open`, `png.Decode`, `png.Encode` and `draw.CatmullRom.Scale` are not modelled. They are the parameters `notExist` and `ImageCodec`. A `Stat` error other than "does not exist" lets the request through, as in the code.
- The `float64` height formula (main.go:212) is the uninterpreted `scaledHeight`. It is not claimed to equal `h*w/sw`.
- The `Close` of the opened file (main.go:202-207) only logs, so it is left out.
- `filepath.WalkDir` itself is not modelled: its traversal is a pre-order fold over a `Node` tree whose children are given in the order the directory listing returns them.
- `ImageList.GetListOfImages`: whether `WalkDir` returns an error is an input per root (`Root.walkError`). This callback always returns nil, so with this callback `WalkDir` never reports one. The error branch (app.go:53-56) is modelled for the day it does.
- `filepath.Rel` is not modelled as a function. Every visited entry gets "." for the root itself, or its names joined by "/". `Rel` cannot fail for paths that `WalkDir` builds under the root, but the callback's skip branch for a failed `Rel` is kept.
- `ImageList.ListedImageRoutes`: it needs every name below the roots to be plain, meaning not empty, not "." or "..", and without '/'. It also needs at most `IntMax` roots. Names that Clean would rewrite are not covered.
- `AssetHandler.ParentEscapesRoot` shows the escape for a root of one plain element only. Roots that are multi-element or absolute are not covered.
- Windows separators are left out: '/' is the only separator.
- Concurrency is left out. The handler's directory list is captured once and never reloaded.
- Settings persistence, `main`, `wails.Run`, `NewApp`, `startup` and `Greet` are outside the core and not part of this model.
- Go's distinction between a nil slice and an empty slice is not modelled. Both are the empty sequence.
- A request path without any '/' panics at main.go:164 when it has an extension (`Address.NoIndexSegment`). It is kept as a panic in both the as-written and the corrected routing, because a request path from an HTTP server always starts with '/'.

- A `width` key whose value list is empty panics at `width[0]` (main.go:189). It is kept as a panic, although `URL.Query()` never builds an empty value list.

## Findings

| source | as written | input that shows it | evidently intended | confidence | as-written member | corrected member |
|---|---|---|---|---|---|---|
| main.go:173-179 | only `dirIndex >= len(h.directories)` is rejected, so a negative index reaches `h.directories[dirIndex]` and panics | the request path `/-1/x.png`, for any roots | an index below zero is not found, like one past the end | high, not executed | AssetHandler.MinusOnePanics | AssetHandler.RouteIntended |
