# Echo service core: separator splitting and map flattening

A Dafny model of the string and map logic of a small Go HTTP echo service.
The service reflects each request back as a JSON document.

- Module `Util` (`util.dfy`) models `util.go`:
  - `split` cuts a string at the first occurrence of a separator, giving `("", "")` when the separator is absent.
  - `splitParams` splits a raw query string on `&`, cuts each segment at its first `=`, and writes the pairs into a map, last write winning.
  - `splitEnv` runs the same loop over a list of `KEY=VALUE` strings.
  - Go's `strings.Index` and `strings.Split` are given as functions (`Index`, `SplitAll`). `Index` promises the first occurrence; `SplitAll` promises that its pieces, joined back with the separator, give the string and that no piece holds the separator.
- Module `Echo` (`main.dfy`) models `main.go`:
  - `rootHandler` copies fields verbatim and flattens the form and header multimaps. For each name it keeps the final value; names with an empty list get no entry.
  - `main` chooses the listen address from the `-env` flag and the `PORT` value.

`SplitParams` and `SplitEnv` are methods with loops, proved equal to the specification functions `ParamsOf` and `EnvOf`. The lemmas then show that those functions are last-write-wins maps (`LastWriteWins`). `Flatten` picks each next name arbitrarily, because Go's map iteration order is unspecified. `FlattenedUnique` shows that the result does not depend on that order.

The reply the code builds:
- `Host` is copied whole, `:port` included (main.go:40).
- `Port` and `Path` of the reply are never assigned, so they stay empty.
- The body is read into a nil slice. So `Body` always ends up `""`, not `"-"` (main.go:42, 49-52).
- `splitParams` is not called by `rootHandler`. `Params` is never filled.
- `req.Form` is filled only by `ParseForm`, and main.go never calls it before the loop at main.go:54. So a running server sees a nil `req.Form` and sends `{}` as `Form`. The model takes the form as an input, and `Flatten` is proved for any form.

## Model

| member | source | states |
|---|---|---|
| Util.Index | util.go:129 | `strings.Index`: -1 exactly when the separator does not occur; otherwise the separator occurs at the result, and at no earlier position |
| Util.IndexFrom | util.go:129 | the first occurrence at or after a start position, or -1 when there is none from there on |
| Util.Split | util.go:128-139 | no occurrence gives `("", "")`; otherwise `before + separator + after == text`, and `before` has no occurrence of a non-empty separator |
| Util.SplitAtFirstOccurrence | util.go:129-136 | `before + separator` holds exactly one occurrence of the separator, at its end |
| Util.SplitEmptySeparator | util.go:129-136 | an empty separator gives `("", text)` |
| Util.SplitCharRoundTrip | util.go:128-139 | a key without the one-character separator, then the separator, then any value, splits back to `(key, value)` |
| Util.SplitFirstEqualsOnly | util.go:144-145 | `"A=B=C"` splits into key `"A"` and value `"B=C"` |
| Util.SplitAll | util.go:158 | `strings.Split` with a non-empty separator: at least one piece; the pieces joined back with the separator give the string; no piece contains the separator |
| Util.SplitAllCharTwo | util.go:158 | two pieces free of a one-character separator, joined by it, split back into exactly those two pieces |
| Util.CollectLastWriteWins | util.go:158-161 | writing pairs in order yields the keys written, each mapped to the value of its last pair |
| Util.CollectSize | util.go:158-161 | the map has no more entries than there were pairs |
| Util.SplitParams | util.go:151-164 | an empty query gives the empty map; otherwise a last-write-wins map over the segments' `split` pairs |
| Util.ParamsOfEmpty | util.go:154-156 | `splitParams("")` is the empty map |
| Util.ParamsOfLastWriteWins | util.go:158-161 | the keys are those `split` gives for the segments, each with the last segment's value, and there are at most as many entries as segments |
| Util.ParamsRepeatedKey | util.go:158-161 | `"a=1&a=2"` gives `{"a": "2"}` |
| Util.ParamsMalformedSegments | util.go:131-133 | `"&"` gives `{"": ""}`: segments without `=` land under the empty key |
| Util.SplitEnv | util.go:141-149 | the environment list becomes a last-write-wins map over its entries' `split` pairs |
| Util.EnvOfLastWriteWins | util.go:143-146 | the environment map's keys are the entries' keys, each with the last value, and at most one entry per list element |
| Util.EnvEntries | util.go:143-146 | `["A=B=C", "NOEQ"]` gives `{"A": "B=C", "": ""}` |
| Echo.Flatten | main.go:54-64 | the result's keys are exactly the names with a non-empty value list, and each maps to the final element of its list |
| Echo.FlattenedUnique | main.go:54-64 | the flattened map is determined by the multimap alone, whatever order the names are visited in |
| Echo.FlattenRepeatedHeader | main.go:60-64 | header `X-Test` with values `["one", "two"]` flattens to `{"X-Test": "two"}` |
| Echo.RootHandler | main.go:37-64 | method, URI, host and encoded query are copied verbatim, and the host keeps any `:port`; port and path are empty; the body is `""`; form and headers are flattened, last value winning |
| Echo.ListenAddress | main.go:84-93 | an empty `PORT` becomes `"8080"`; the address is `"localhost:" + port` exactly when the env flag is `"dev"`, otherwise `":" + port`; cutting it at `:` gives back the host part and the port; the `-port` flag plays no part |

## Left out

- The request logger (util.go:43-120): wall-clock timing, float formatting of durations and coloured log output.
- The `statusResponseWriter` and `jsonResponseWriter` wrappers (util.go:15-35): they only delegate to `http.ResponseWriter`.
- JSON output (`sendJson` at util.go:122-126, `jsonResponseWriter.send` at util.go:37-41, and the write at main.go:66-68): `encoding/json.MarshalIndent` is a foreign library, and the source discards its error.
- The request log line of `rootHandler` (main.go:35): output only, with no effect on the reply.
- `req.URL.Query().Encode()` (main.go:41) is `net/url` canonicalisation. It enters the model as the input `Request.encodedQuery`.
- The `URL` field (`req.URL` and `req.URL.Port()`, main.go:45) and the `TLS` pass-through (main.go:46) are left out. They are library values copied without logic.
- The `Params` field of `echoResponse` is left out. No code in main.go or util.go assigns it.
- The body read (main.go:49-52) is I/O. The model keeps only its effect: reading into a nil slice yields no bytes, so the body is `""`.
- `os.Environ()` (util.go:143) is replaced by the parameter `environ` of `SplitEnv`. `os.Getenv("PORT")` and flag parsing (main.go:80-84) are replaced by parameters of `ListenAddress`.
- Routing, `http.ListenAndServe`, `log.Fatal` and `hiHandler` (main.go:71-73, 95-99) are process and network plumbing.
- `data.go` is not part of this model. It declares a struct that no code in main.go or util.go builds.
- Util.SplitAll: models `strings.Split` only for a non-empty separator. With an empty separator Go splits into UTF-8 sequences, and the source only calls it with `"&"`.
- Go strings are byte sequences, while the model works on `seq<char>`. Searching for the ASCII separators `=`, `&` and `:` finds the same cut points either way.
