# A verified model of a small Go wiki server

The modelled program is a minimal wiki written in Go (`goTest.go`). Users view,
edit and save text pages. Each page is stored as a file named `<title>.txt`.
Request paths of the form `/view/T`, `/edit/T` and `/save/T` are checked
against the pattern `^/(edit|save|view)/([a-zA-Z0-9]+)$`. The bare root goes
to the front page. Before a page is shown, `deepReplacement` rewrites
`[Target]` tokens in its body into `<a href="/view/Target">Target</a>`. Which
tokens it rewrites differs from what its comment says, as listed below.

The model has six modules:

- `Wrappers`: `Option` and `Result`.
- `ByteStrings`: Go byte strings as `seq<byte>`, the count of `]` bytes, and
  Go's `strings.Index` and `strings.Replace(s, old, new, 1)`. The replace is
  the only library call whose meaning matters to the rewriter.
- `LinkRewriter`: `deepReplacement`. The method `DeepReplacement` holds the
  source's outer loop over a buffer that it reassigns. The inner search for
  the closing `]` is the separate method `NearestClose`, which the outer loop
  calls. The method is proved equal to a recursive specification,
  `RewriteFrom`, and the rewriter's properties are proved as lemmas about that
  specification.
- `PathValidator`: the path pattern, written as a parser that returns the two
  capture groups. It comes with proofs that it accepts exactly the paths
  `/op/id` and returns their groups.
- `LinkExamples`: the rewriter's result on two families of inputs. In one, a
  token appears twice. In the other, an escaped token is followed by an
  eligible copy of itself.
- `Wiki`: `Page`, the page store (a map from file name to bytes), `save`,
  `loadPage`, the four handlers and the `makeHandler` router. Each is a
  function from the store and the request to the response and the new store.

Page bodies are bytes, because `deepReplacement` indexes its buffer byte by
byte. Its guard `i-1 > 0` therefore counts bytes, not characters. Paths and
titles are strings. The validator only accepts ASCII, so for paths characters
and bytes agree.

The comment above `deepReplacement` (goTest.go:58) says that it replaces all
instances of `[text]`. The code does something different in three ways, and
the model follows the code:

- A `[` at byte 0 or 1 is never a link start. The guard
  `i-1 > 0 && body[i-1] != '\\'` (goTest.go:62) needs `i >= 2`. `LinkStart`
  and `LinkEnd` state this.
- A token that appears twice, as in `See [Home] and [Home]`, is replaced both
  times. Each scan step replaces the leftmost remaining occurrence of its token
  (goTest.go:66). When the scan later reaches the second `[Home]`, that is the
  leftmost one left, so it is replaced too. `RepeatedTokenBothRewritten`
  proves this for every input of the shape `p[t]s[t]`.
- Because the replacement hits the leftmost occurrence, an escaped `\[T]`, or
  a `[T]` at byte 0 or 1, is still rewritten when an eligible `[T]` follows
  it. `ReplaceLinkLeftmost` states this: the occurrence replaced lies at some
  index `k <= i`. `EscapedTokenRewritten` proves that `p\[t][t]` becomes
  `p\` followed by two anchors.

## Model

| member | source | states |
|---|---|---|
| `LinkRewriter.LinkStart` | goTest.go:62 | The guard holds exactly when `body[i]` is `[`, `i >= 2` and `body[i-1]` is not `\`. The guard's `i-1 > 0` thus rules out bytes 0 and 1. |
| `LinkRewriter.Anchor` | goTest.go:66 | The replacement text is `<a href="/view/`, the target, `">`, the target and `</a>`. Its length is 21 plus twice the target's length. The target appears verbatim both in the `href` and as the link text. |
| `LinkRewriter.ReplaceLink` | goTest.go:66 | The replacement of a link token always finds the token, since it occurs at `i`. So it always makes the buffer longer. |
| `LinkRewriter.LinkEnd` | goTest.go:62-64 | A link starts at `i` exactly when `body[i]` is `[`, `i >= 2` (the guard `i-1 > 0`), `body[i-1]` is not `\`, and some `]` follows. The result is the nearest such `]`, with no `]` strictly in between. |
| `LinkRewriter.FindClose` | goTest.go:63-69 | The inner loop's search gives the nearest `]` at or after `from`, or none when no `]` remains. |
| `LinkRewriter.FindCloseNearest` | goTest.go:63-69 | Any `]` with no `]` before it from `from` on is the one the search finds. |
| `LinkRewriter.LinkTargetShape` | goTest.go:63-66 | The link token is `[` + T + `]`, where T is the text strictly between the brackets and contains no `]`. |
| `LinkRewriter.ReplaceLinkLeftmost` | goTest.go:66 | The occurrence of `[T]` that is replaced is the leftmost one in the current buffer. It starts at an index `k <= i`. The result is `body[..k]` + anchor + the text after that occurrence, so everything outside the occurrence is kept. |
| `LinkRewriter.ReplaceFirstCount` | goTest.go:66 | When `strings.Replace` with count 1 finds its pattern, the result has the pattern's `]` bytes swapped for the replacement's, and its length changes by the difference of the two lengths. |
| `LinkRewriter.LinkTokenCount` | goTest.go:63-66 | A token `[T]` whose `T` holds no `]` holds exactly one `]`. Its anchor holds none and is longer than the token. |
| `LinkRewriter.ReplaceLinkShape` | goTest.go:66 | Each replacement of a link token removes exactly one `]` from the buffer and makes the buffer longer. |
| `LinkRewriter.RewriteFrom` | goTest.go:61-71 | The links made plus the `]` left in the output equal the `]` in the input. So there are at most as many replacements as `]` bytes, and the scan terminates. The output is at least as long as the input plus the number of links. The output equals the input exactly when no link was made. No link target contains `]`. |
| `LinkRewriter.ScanStep` | goTest.go:61-71 | The unfolding lemma for one outer iteration of the specification. With no link at `i`, the scan goes on at `i + 1` in the same buffer. Otherwise it goes on at `i + 1` in the rewritten buffer. The three `Advance` lemmas state the same step in terms of the loop's own tests. |
| `LinkRewriter.NearestClose` | goTest.go:63-64 | The inner loop stops at the nearest `]` at or after `from`. When no `]` remains, it runs to the end of the buffer. No `]` lies before the index it returns. It stops before the end exactly when the search `FindClose` finds a `]`, and then at the index `FindClose` gives. |
| `LinkRewriter.AdvanceNoStart` | goTest.go:61-62 | When no link starts at `i`, the scan goes on at `i + 1` in the same buffer. |
| `LinkRewriter.AdvanceNoClose` | goTest.go:62-69 | When a link starts at `i` but no `]` follows, the inner loop runs out and the scan goes on at `i + 1` in the same buffer. |
| `LinkRewriter.AdvanceLink` | goTest.go:62-68 | When the nearest `]` after the link start `i` is at `j`, the scan goes on at `i + 1` in the rewritten buffer. That buffer holds one `]` fewer and is longer, which is why the loop terminates. |
| `LinkRewriter.SkipPlain` | goTest.go:61-62 | A stretch of the buffer that holds no `[` is passed over: the scan from its start gives the same result as the scan from its end. |
| `LinkExamples.RepeatedTokenBothRewritten` | goTest.go:59-73 | Take a buffer `p[t]s[t]` where only the two tokens hold `[` and `t` holds no `]`. Suppose also that `p` has at least two bytes and does not end in `\`, and that `s` holds no `\`. Then both copies of `[t]` become anchors and nothing else changes. `See [Home] and [Home]` is one such input. |
| `LinkExamples.EscapedTokenRewritten` | goTest.go:59-73 | Take a non-empty `p` and a buffer `p\[t][t]` with no other `[`, where `t` holds no `]`. The result is `p\` followed by two anchors. The escaped token is not a link start. But the replacement made for the eligible copy hits the escaped one, which comes first. The scan then reaches the eligible copy and rewrites it as well. |
| `LinkRewriter.Rewritten` | goTest.go:59-73 | The value `deepReplacement` returns, the scan from byte 0. It is never shorter than the input and never holds more `]` bytes. |
| `LinkRewriter.NoLinksIff` | goTest.go:61-71 | A scan from `i` makes no link exactly when no index from `i` on holds a link start followed by a `]`. |
| `LinkRewriter.RewrittenUnchangedIff` | goTest.go:59-73 | The rewriter returns its input byte for byte exactly when the input holds no eligible `[` with a `]` after it. |
| `LinkRewriter.NoBracketUnchanged` | goTest.go:59-73 | Input with no `[`, or with no `]`, is returned unchanged. |
| `LinkRewriter.DeepReplacement` | goTest.go:59-73 | The imperative loop returns exactly the specified rewrite of its input. It terminates on the measure (count of `]`, bytes left). The inner loop is the method `NearestClose`, and its `break` is the early return there. |
| `ByteStrings.ReplaceFirst` | goTest.go:66 | Go's `strings.Replace(s, pat, repl, 1)`. With no occurrence of `pat`, `s` is returned unchanged. Otherwise the length changes by `|repl| - |pat|`. |
| `ByteStrings.ReplaceFirstLeftmost` | goTest.go:66 | When the leftmost occurrence of `pat` is at `k`, the result is `s[..k]` + `repl` + the text after that occurrence. |
| `ByteStrings.FirstIndexFrom` | goTest.go:66 | `strings.Replace` with count 1 finds a match. Either the result is the leftmost occurrence of the pattern from `from` on, with no occurrence before it, or there is no occurrence at all. |
| `PathValidator.ParseOp` | goTest.go:17 | The operation group accepts exactly the names `edit`, `save` and `view`, and returns the operation that each one names. |
| `PathValidator.ValidPath` | goTest.go:17 | Every accepted path is exactly `"/" + op + "/" + id`, where `id` is non-empty and made only of ASCII letters and digits. The returned groups are that `op` and that `id`. |
| `PathValidator.ValidPathAccepts` | goTest.go:17 | Every path `/op/id` with a valid `id` is accepted, and the result is exactly `(op, id)`. |
| `PathValidator.ValidPathIff` | goTest.go:17 | A path is accepted if and only if it has the form `/op/id` with a valid `id`. |
| `PathValidator.AcceptedIdIsPlainName` | goTest.go:17 | An accepted identifier is non-empty and contains no `/`, `.` or `\`. So `id + ".txt"` cannot leave the working directory. |
| `PathValidator.ExtraSegmentRejected` | goTest.go:17 | A trailing slash or an extra path segment after the identifier is rejected. |
| `PathValidator.EmptyIdRejected` | goTest.go:17 | `/op/` with an empty identifier is rejected. |
| `Wiki.FileName` | goTest.go:41 | The file name is the title followed by `.txt`, as both `loadPage` (goTest.go:41) and `save` (goTest.go:27) build it. |
| `Wiki.FileNameInjective` | goTest.go:27 | Different titles map to different file names. |
| `Wiki.Save` | goTest.go:26-29 | Saving writes the raw body, unchanged, to `title + ".txt"`. It adds only that key and leaves every other file as it was. |
| `Wiki.LoadPage` | goTest.go:40-47 | Loading reads `title + ".txt"`. It succeeds exactly when that file exists and returns a page with that title and the file's bytes. A missing file gives an error. |
| `Wiki.SaveThenLoad` | goTest.go:26-29 | Loading a title right after saving it returns the saved body byte for byte. |
| `Wiki.SaveKeepsOtherPages` | goTest.go:26-29 | Saving one page does not change what loading any other title returns. |
| `Wiki.ViewHandler` | goTest.go:76-84 | A missing page redirects (302) to `/edit/<title>`. A present page is rendered with the `view` template, its raw body and the body run through the rewriter. The store is never changed. |
| `Wiki.EditHandler` | goTest.go:50-56 | The `edit` template is rendered with the stored body. When the page is missing, it gets a page that has only the title and an empty body. The store is never changed. |
| `Wiki.SaveHandler` | goTest.go:87-92 | The response is always a 302 redirect to `/view/<title>`, whatever the store holds. Afterwards loading the title returns the submitted form body verbatim, and every other title loads as before. The store gains only the file `title.txt`, and every other file keeps its bytes. |
| `Wiki.FrontPageRedirect` | goTest.go:95-97 | The response is always a 302 redirect to `/view/FrontPage`, and the store is not changed. |
| `Wiki.Route` | goTest.go:100-111 | The root path `/` gives the title `FrontPage` without consulting the pattern. Any other path gives a title exactly when it has the form `/op/id`, and the title is then `id`. Any title handed on is made only of letters and digits. |
| `Wiki.MakeHandler` | goTest.go:100-113 | The bound handler runs on the routed title. A path that does not route gets 404 Not Found and leaves the store unchanged. |
| `Wiki.UnknownOperationNotFound` | goTest.go:106-110 | A path whose first segment is not `edit`, `save` or `view` gets 404, whichever handler it reaches. |
| `Wiki.SaveThenView` | goTest.go:76-92 | Posting a body to `/save/T` redirects to `/view/T`. A following `GET /view/T` then renders that body, with the view copy run through the rewriter. |
| `Wiki.ViewMissingRedirectsToEdit` | goTest.go:76-81 | Viewing a page that was never saved redirects (302) to `/edit/T` and writes nothing. |

## Left out

- The HTTP server: `main`, the `http.HandleFunc` registrations and `ListenAndServe` (goTest.go:115-122). Which handler gets a path is decided by the library's prefix matching, so every handler is modelled behind `MakeHandler` on its own.
- Template parsing and rendering (goTest.go:16, goTest.go:32-37), including the 500 response when rendering fails. Rendering is kept as the outcome `Render(name, page)`.
- Real file I/O. The files are a map from name to bytes. Write errors, read errors other than a missing file, and the file mode 0600 are not modelled.
- `SaveHandler`: the model's store cannot fail to write. The source ignores the error that `p.save()` returns. The model shows this only as a redirect that does not depend on the store, not as a failed write.
- The debug `fmt.Println` in the rewriter (goTest.go:65). It has no effect on the result.
- The regular-expression engine. The pattern's language is written out directly as a parser.
- Form decoding: `r.FormValue("body")` is a parameter holding the bytes of the submitted value.
- The HTML bodies that `http.Redirect` and `http.NotFound` write. A redirect keeps only its location and status.
- Concurrent requests and last-write-wins races on files. Each handler is one step on the store.
