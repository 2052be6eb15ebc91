# nci-header-bar proxy core, modelled in Dafny

The server in `server/server.js` is a reverse proxy. It serves local assets when it
has them and otherwise forwards requests to an upstream site, the host named by
`PROXY_ENV`. It rewrites HTML responses on the way back so that every page loads
the shared "Return to NCI" stylesheet and bar script. This project models the
three parts of that file that carry logic, and proves properties of the models.

- `Inject` models `injectReturnToNCI`. It finds the first closing head tag,
  ignoring ASCII case. It replaces that tag with a stylesheet link, a script tag
  and a new lower-case `</head>`; both tags carry `site=<proxyEnv>`. The
  expression `/(<\/head>)/i` has no `u` flag, so case folding never maps a
  non-ASCII character to an ASCII one. ASCII folding is therefore exact for
  this pattern. `proxyEnv` is a parameter. When it is unset, JavaScript
  concatenation writes `undefined`, and `Text.JsText` says the same.
- `Override` models `pickFile`, the path rewrite for `/nci-global.css` and
  `/returnToNCI-bar.js`. Query parsing and `fs.existsSync` are parameters. The
  parser either throws or yields the `site` value. An absent `site` takes part as
  the text `undefined`, as in the source.
- `Interceptor` models the `onProxyRes` handler as the class `Interception`.
  - The constructor decides, from the upstream headers, whether to intercept.
  - `OnData` appends chunks to the buffer.
  - `OnUpstreamEnd` decodes the buffer. It gunzips only when the encoding is
    exactly `gzip`.
  - While intercepting, `Write` does nothing and `WriteHead` records its
    arguments; the last call wins.
  - `End` runs the five calls the patched `end` makes on the original response.
    The field `log` records every call made through the original methods.
- `Text` holds the first-occurrence search and replace that both rewrites use.
  It models `String.prototype.replace` with a string pattern and with a literal
  regular expression.

The model follows the code as written. Points a reader may not expect:

- The re-emitted closing tag is always lower-case `</head>`; the original tag's
  case is not kept.
- The content-type test `.match('text/html')` is case-sensitive. The
  case-insensitive `contentTypeRegEx` (line 23) is never used.
- A failing gunzip has no fallback. `gunzipSync` throws and `body` stays
  unset.
- The model does not stop `End` from being called again. Each call appends the
  five calls to the log again.
- `content-length` is the length of the output string, not its byte count.

## Model

| member | source | states |
|---|---|---|
| `Text.FindFirst` | server/server.js:68 | The search finds a match exactly when the pattern occurs. The index it returns is the leftmost occurrence. |
| `Text.ReplaceFirst` | server/server.js:86 | With no occurrence the string is unchanged. Otherwise the text before the first occurrence and the text after it are kept, and only that occurrence is replaced, so the length changes by the difference. |
| `Text.ReplaceFirstWithItself` | server/server.js:86 | Replacing the first occurrence of a pattern by itself gives back the original string, so `path.replace(file, "" + file)` is the identity. |
| `Text.LaterMatchKept` | server/server.js:68 | An occurrence that starts after the end of the first one still matches after the replacement, shifted by the difference in length, and the text there is character for character the text of the original occurrence. |
| `Inject.InjectReturnToNCI` | server/server.js:64-70 | The output equals the input exactly when there is no case-insensitive `</head>`. Otherwise the output is one character longer than the input plus the link and script tags. The text before the first match and the text after it are kept, and the match becomes the tags, `\n` and a lower-case `</head>`. |
| `Inject.LaterHeadClosesKept` | server/server.js:68 | Only the first closing tag is replaced. Every later `</head>` comes after the end of the first one. It still matches `</head>`, ignoring case, in the output, shifted right by the length of the tags plus one for the newline. |
| `Inject.InjectAfter` | server/server.js:68 | When no closing tag starts inside `before`, the page `before + </head> + after` becomes `before`, the link and script tags, `\n`, `</head>`, then `after`. |
| `Inject.SmallPageExample` | server/server.js:64-70 | For `<html><head></head><body>hi</body></html>` with site `foo`, the two tags are placed immediately before `</head>` and nothing else changes. |
| `Override.PickFile` | server/server.js:72-87 | The path is unchanged when parsing throws, when the override file `./dist/returnToNCI/<site><file>` does not exist, or when `file` does not occur in it. Otherwise only the first `file` becomes `/<site><file>`, with the rest of the path kept. |
| `Override.OverrideChangesPath` | server/server.js:76-78 | When the override exists, the path changes exactly when `file` occurs in it, and it grows by the length of `/<site>`. |
| `Interceptor.ShouldIntercept` | server/server.js:133-137 | Interception happens exactly when the upstream headers exist and have a content type that contains `text/html` case-sensitively. |
| `Interceptor.CharsetParameterIntercepted` | server/server.js:133-137 | A content type of `text/html; charset=utf-8` is intercepted. |
| `Interceptor.UpperCaseNotIntercepted` | server/server.js:136 | A content type of `TEXT/HTML` is not intercepted, because `.match('text/html')` compares case-sensitively. |
| `Interceptor.Decode` | server/server.js:153-159 | The buffer is gunzipped only when the content encoding is exactly `gzip`, and the result fails exactly when gunzip fails. Any other encoding takes the raw bytes as UTF-8. |
| `Interceptor.ChunkInBuffer` | server/server.js:146-152 | The buffer holds every chunk intact and in arrival order. Each chunk starts right after the bytes of the chunks before it. |
| `Interceptor.WriteIsFramed` | server/server.js:167-176 | In an intercepted response's log, each page write comes after three calls: `content-length` set to that page's length, `content-encoding` removed, and the replayed `writeHead`. An empty `end` follows it. |
| `Interceptor.Interception.constructor` | server/server.js:130-146 | A new exchange intercepts exactly when `ShouldIntercept` holds. It starts with an empty buffer, no body, no recorded `writeHead` and an empty log. |
| `Interceptor.Interception.OnData` | server/server.js:149-152 | While intercepting, the chunk is appended to the buffer and nothing else changes. Otherwise nothing changes. |
| `Interceptor.Interception.OnUpstreamEnd` | server/server.js:153-160 | While intercepting, the body becomes the decoded buffer. A failing gunzip is reported, and then the body is unchanged. |
| `Interceptor.Interception.Write` | server/server.js:163 | While intercepting, a write emits nothing. Otherwise it is forwarded. |
| `Interceptor.Interception.WriteHead` | server/server.js:164 | While intercepting, only the arguments are recorded, and the last call wins. Otherwise the call is forwarded. |
| `Interceptor.Interception.End` | server/server.js:167-176 | While intercepting, the injected page is emitted by five calls in order: `content-length` set, `content-encoding` removed, `writeHead` replayed with the recorded arguments (none if nothing was recorded), the page written, and `end("")`. The header map gains `content-length` and loses `content-encoding`. The body must already be decoded. |

## Left out

- `Inject.InjectReturnToNCI`: JavaScript expands `$` patterns (`$&`, `$1`, `$$`, ...) in a replacement string. The model inserts the replacement literally, so it agrees with the source only when `PROXY_ENV` contains no `$`.
- `Override.PickFile`: `$` patterns are not expanded here either. The model agrees with the source only when the `site` value contains no `$`.
- `url.parse`, `querystring.parse`, `fs.existsSync`, zlib's `gunzipSync` and `Buffer#toString('utf8')` are foreign. They are parameters: a parser result, an existence predicate and a pair of decoder functions. Their correctness, including the gzip round trip, is not modelled.
- A repeated `site` query value is an array in the source, and concatenation joins it with commas. The parser parameter is taken to return that text already.
- `content-length`: Dafny characters are Unicode scalar values, while JavaScript's `length` counts UTF-16 code units. The model counts characters and claims nothing about byte accuracy.
- The exception thrown by a failing `gunzipSync` appears as `ok == false` from `OnUpstreamEnd`. What the exception then does to the process is not modelled.
- `Interceptor.Interception.End`: the original response methods never fail in the model. In Node, a second `end` calls `setHeader` (line 169) after the headers were already sent, which throws. Replaying `writeHead` with no arguments when nothing was recorded (line 171) is rejected for lack of a status code. The model appends the events in both cases.
- The original `write`, `writeHead`, `end`, `setHeader` and `removeHeader` are recorded as events. Their effect on the socket and calls Node makes internally are not modelled. So are the patched `write`'s return value and http-proxy's piping of the upstream stream into the response.
- Logging is not modelled: `winston.info` when a response is intercepted (line 138) and the `console.log` calls in `pickFile` (lines 77, 80 and 83).
- Express setup, the view engine, logging, body and cookie parsers, static file serving, route registration and proxy `router` tables (lines 17-49 and 89-124) are framework configuration.
- The 404 and 500 handlers, the listening port and the process-wide TLS toggle (lines 187-224) are rendering, I/O and environment.
