# epic: page partitioning and page lookup, in Dafny

`epic` is a small static-site tool. Its `serve` command answers every request
by looking for a page file under `./site/pages`. When it finds one, it splits
the page into a head fragment and a page fragment and fills both into a shared
document template. This project models the two pieces of logic in `main.go`
that decide what gets served:

- **`ssrDocument`**, the page partitioner. It makes one pass over the HTML
  token stream with a single context slot (`currentElement`), which holds no
  region, `head` or `template`. There is no stack.
  - A `head` or `template` start tag sets the slot and is not emitted.
  - Every other token is appended, in its string form, to the fragment of
    the current region. Outside any region it is dropped.
  - After that append, any end tag resets the slot, whatever its name.
  - The scan stops at the first error token. At EOF it returns
    `(page, head, nil)`. At any other error it returns the partial fragments
    with that error.
- **the request-path handling of the `/` handler**:
  - `/` is rewritten to `/index.html`.
  - The path is cleaned, and a trailing `/` is put back if the request had
    one.
  - `maybeUrl` gets `.html` appended unless `url` already ends in `/` or
    `.html`.
  - The checked file name is built from `maybeUrl`. The read file name is
    built from `url`.

Modules:

- `Html` (`html.dfy`): the token datatype that stands for the tokenizer's
  output. Each token carries its atom (for tags) and its `String()` form as
  opaque data.
- `Ssr` (`ssr.dfy`): the specification and the loop.
  - `Step` is one loop iteration, `Scan` a sequence of iterations, and
    `Partition` the whole result.
  - `SsrDocument` is the loop itself. It is written as the source writes it
    (a `for` loop with `continue` and an early `return`). Its postcondition
    says it computes `Partition`.
- `SsrProperties` (`ssr_properties.dfy`): what the partitioner guarantees.
  - `OpenRegion` describes the slot without running the loop. `Captured`
    says which fragment each token goes to.
  - Lemmas tie `Scan` to both. Further lemmas cover the append-only
    fragments, the way the scan ends, and flat `head`/`template` blocks.
- `Serve` (`serve.dfy`): the path handling. `path.Clean` and `path.Join` are
  passed in as uninterpreted functions. `Resolve` is the specification, and
  the method `ResolveRequest` runs the handler's statements and is proved to
  compute it. `ResolveFixed` is the corrected handler (see "Findings").

The model follows the order of the code. The append (main.go:45-49) comes
before the reset (main.go:51-55), so the end tag that closes a region is kept
in that region's fragment:

- `<head>A</head>` gives head `A</head>`.
- `<template><span>X</span></template>` gives page `<span>X</span>`.
  `</span>` closes the region and is kept. `</template>` is dropped.

## Model

| member | source | states |
|---|---|---|
| `Ssr.SsrDocument` | main.go:19-57 | the loop returns exactly `Partition(tokens)`: page fragment, head fragment, and error |
| `Ssr.Step` | main.go:38-55 | one token: both fragments only grow, and never both at once; a `head`/`template` start tag changes no fragment and sets the slot to its region; any end tag leaves the slot empty; other tokens leave the slot alone |
| `Ssr.OpensRegion` | main.go:38-39 | only a start tag whose atom is `head` or `template` opens a region; a self-closing `<head/>` or `<template/>`, an end tag or an error token never does |
| `Ssr.RegionOf` | main.go:39-40 | a `head` start tag opens the head region and a `template` start tag opens the template region; neither leaves the slot empty |
| `Ssr.Filled` | main.go:45-49 | a token's string is appended to the head fragment inside `head`, to the page fragment inside `template`, and dropped outside; the slot is not changed by the append |
| `Ssr.Scan` | main.go:26-56 | the loop run over an error-free prefix: no tokens leave the initial state (no region, empty fragments); after a `head`/`template` start tag the slot holds its region; after an end tag of any name the slot is empty |
| `Ssr.FirstError` | main.go:26-36 | the scan stops at the first error token; every token before it is a non-error token |
| `Ssr.Partition` | main.go:30-35 | the returned error is never EOF (EOF becomes nil), and any error returned is one carried by the token stream |
| `SsrProperties.OpeningTagOnlyMovesSlot` | main.go:38-42 | a `head`/`template` start tag is never appended to either fragment; it overwrites the slot, so regions do not nest |
| `SsrProperties.EndTagClosesRegion` | main.go:45-55 | an end tag of any name inside `head` (or `template`) is first appended to the head (or page) fragment, and then the slot is emptied; with the slot empty, an end tag changes nothing |
| `SsrProperties.OtherStartTagKeepsSlot` | main.go:38-43 | a start tag with another name never changes the slot |
| `SsrProperties.LastOpening` | main.go:38-42 | the position of the last `head`/`template` start tag, or -1; no such tag comes after it |
| `SsrProperties.ScanRegion` | main.go:38-55 | after any tokens, the slot is the region opened by the last `head`/`template` start tag, unless an end tag of any name came after it, in which case it is empty |
| `SsrProperties.ScanRouting` | main.go:45-49 | the page fragment is exactly the concatenation of the tokens seen inside `template`, and the head fragment of those seen inside `head`, in order, opening tags excluded |
| `SsrProperties.CapturedIsPartition` | main.go:45-49 | every token other than an opening tag goes to exactly one of page, head or nowhere: none is written twice and none is lost |
| `SsrProperties.FragmentsBoundedByInput` | main.go:45-49 | the two fragments together are no longer than the string forms of the tokens they come from |
| `SsrProperties.ScanAppendOnly` | main.go:45-49 | the fragments after k tokens are prefixes of the fragments after more tokens |
| `SsrProperties.PartitionAppendOnly` | main.go:20-49 | the result for any prefix of the stream is, fragment by fragment, a prefix of the result for the whole stream |
| `SsrProperties.PartitionAtError` | main.go:30-35 | at an error token, the fragments accumulated before it are returned, with a nil error for EOF and with that token's error otherwise |
| `SsrProperties.PartitionAtEnd` | main.go:30-32 | a stream with no error token ends as at EOF: the accumulated fragments and a nil error |
| `SsrProperties.PartitionIgnoresRest` | main.go:30-35 | nothing after the first error token affects the result |
| `SsrProperties.OutsideDropped` | main.go:45-49 | with the slot empty, tokens other than `head`/`template` start tags are dropped and the state stays as it was |
| `SsrProperties.InsideRegion` | main.go:45-49 | inside a region, tokens with no end tag and no `head`/`template` start tag among them are appended, in order, to that region's fragment only; the other fragment and the slot stay as they were |
| `SsrProperties.FlatBlock` | main.go:38-55 | for a flat `<head>…</x>` or `<template>…</x>` block, the opening tag is stripped, the content and the closing end tag are appended to that block's fragment, the other fragment is unchanged, and the slot ends empty |
| `SsrProperties.EmptyPage` | main.go:19-57 | an empty page gives two empty fragments and a nil error |
| `SsrProperties.HeadExample` | main.go:19-57 | `<head>A</head>`, for any text `A`, gives page `""` and head `A</head>` |
| `SsrProperties.NestedEndTagExample` | main.go:19-57 | `<template><span>X</span></template>`, for any text `X`, gives page `<span>X</span>` and head `""` |
| `SsrProperties.SpanClosesTemplate` | main.go:38-55 | after `<template><span>X</span>`, for any text `X`, the `</span>` end tag has been appended to the page fragment and has emptied the slot: page `<span>X</span>`, head `""`, no region |
| `SsrProperties.MalformedExample` | main.go:30-35 | a malformed token after `<head>A` returns head `A` with that error; tokens after it are ignored |
| `Serve.HtmlCandidate` | main.go:90-93 | `maybeUrl` always ends in `/` or `.html`; it equals `url` exactly when `url` already ends in `/` or `.html`, and otherwise equals `url + ".html"` |
| `Serve.Resolve` | main.go:83-96 | an empty path panics on the index and no other path does; `/` becomes `/index.html`; `url` is the cleaned path, with `/` appended when the request path ends in `/`, so it then ends in `/`; `maybeUrl` is the `.html` candidate of `url`; the checked file is joined from `maybeUrl` and the read file from `url` |
| `Serve.ResolveRequest` | main.go:83-96 | the handler's statements compute exactly `Resolve` |
| `Serve.ExtensionlessRouteReadsOtherName` | main.go:95-110 | for `/about`, whenever cleaning leaves `/about` unchanged, the checked name is `/about.html` but the read name is `/about` |
| `Serve.ResolveFixed` | main.go:95-110 | same resolution, except the file that is read is the file whose existence was checked; that file's name ends in `/` or `.html` |
| `Serve.ExtensionlessRouteReadsCheckedName` | main.go:95-110 | with the correction, `/about` checks and reads `/about.html` |

## Findings

| source | as written | input that shows it | evidently intended | confidence | as-written member | corrected member |
|---|---|---|---|---|---|---|
| main.go:95-110 | `os.Stat` checks `maybeFile`, joined from `maybeUrl`, but `os.ReadFile` reads `file`, joined from `url` | request `/about` with `site/pages/about.html` present: the check passes, then `./site/pages/about` is read, and the read error's text is sent as the response | read the page whose existence was checked (`maybeFile`), so that `/about` serves `about.html` | medium, not executed | `Serve.Resolve`, `Serve.ExtensionlessRouteReadsOtherName` | `Serve.ResolveFixed`, `Serve.ExtensionlessRouteReadsCheckedName` |

## Left out

- The HTML tokenizer (`golang.org/x/net/html`): it is a library. The model takes the token sequence it would yield as input. `Token.String()` and the tag-name-to-atom mapping are opaque data on each token.
- The tokenizer's laziness: the stream is a finite `seq<Token>`. Running off its end counts as EOF, because the real tokenizer yields an EOF error token once the input is used up.
- Command-line setup (`urfave/cli`), the port flag, and the `generate` and `complete` actions: there is no logic in them to verify. `ssrComponent` is a stub that returns `("", nil)`.
- HTTP serving and response writing, the static file server fallback, and `os.Stat`/`os.ReadFile`: these are I/O. Only the names passed to them are modelled.
- The `text/template` parse and execute of the document template: this is a library.
- `path.Clean` and `path.Join`: these are library calls. They are passed in as uninterpreted functions. The only property assumed is Go's documented guarantee that `path.Clean` never returns the empty string.
- Serve.Resolve: the handler updates `r.URL.Path` in place, which the static file server later sees. The model returns the rewritten path as the `path` field instead of updating a request object.
- Serve.Resolve: Go's runtime panic on indexing an empty path becomes the `IndexOutOfRange` result. net/http's recovery from that panic is not modelled.
