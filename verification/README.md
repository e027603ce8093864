# svg-to-html-mcp in Dafny

A model of the two tool servers of svg-to-html-mcp. Each server answers a
`svg_to_html` tool call: it checks the arguments `artifact_content` and
`artifact_version`, and then wraps the artifact in a standalone HTML page.

- `index.js` is the artifact-to-HTML server. It classifies the content as
  SVG markup or as code. SVG markup goes raw into an SVG page. Code goes raw
  into the script of a chart page.
- `index.ts` is the code-view server. It has no classifier. Every valid
  artifact is shown HTML-escaped inside a `<pre><code>` block.

Modules, each in its own file:

| file | module | models |
|---|---|---|
| `js_text.dfy` | `JsText` | `String.prototype.trim`, `startsWith`, `includes` on `seq<char>` strings, with ECMAScript's white-space and line-terminator set written out |
| `classifier.dfy` | `Classifier` | `isSvgContent` |
| `html_escape.dfy` | `HtmlEscape` | `escapeHtml`, a per-character reference definition, and an unescape |
| `tool_args.dfy` | `ToolArgs` | the JSON `arguments` value, `typeof`, truthiness, the argument validator, the reply, and the handler's `catch` |
| `templates.dfy` | `Templates` | template literals as sequences of fixed text and holes |
| `artifact_to_html.dfy` | `ArtifactToHtml` | `index.js`: both converters and the tool-call handler |
| `svg_to_html.dfy` | `SvgToHtml` | `index.ts`: the converter and the tool-call handler |

A page is a `Template`: a sequence of `Text` pieces and holes for the
version, the raw content or the escaped content. `Fill` evaluates it the
way the template literal does. `Between(doc, pre, post)` extracts the part
of a page between a fixed prefix and suffix. The converters' contracts say,
through `Between`, exactly what text sits between the filled head and tail
of the page.

## Model

| member | source | states |
|---|---|---|
| JsText.SkipWsForward | index.js:59 | the scan stops at the first non-white-space code point from its start, having passed only white space |
| JsText.SkipWsBackward | index.js:59 | the scan stops just past the last non-white-space code point above its lower bound, having passed only white space |
| JsText.Trim | index.js:59 | the trimmed string is empty exactly when the input is all white space; otherwise it starts and ends with a non-white-space code point |
| JsText.TrimIsSlice | index.js:59 | the trimmed string is a slice of the input with only white space before and after it |
| JsText.IncludesIff | index.js:59 | `includes` holds exactly when the pattern occurs at some index |
| JsText.TrimStartsWith | index.js:59 | for a pattern with no white space at either end, the trimmed string starts with it exactly when it follows the input's leading white space |
| JsText.StartsAfterWsSkipsWs | index.js:59 | prepending white space does not change whether such a pattern follows the leading white space |
| JsText.OccursSkipsWs | index.js:59 | a pattern that begins with a non-white-space code point occurs in `ws + s` exactly when it occurs in `s` |
| Classifier.IsSvgContent | index.js:58-60 | content is SVG exactly when its first non-white-space code points are `<svg`, or `<svg ` occurs anywhere in the raw content |
| Classifier.SvgTagAnywhere | index.js:59 | `<svg ` anywhere makes the content SVG, whatever precedes it |
| Classifier.LeadingSvgTag | index.js:59 | after leading white space, `<svg` with no following space is enough, as in `<svg>` or `<svgx` |
| Classifier.PrependWsPreserves | index.js:59 | prepending white space never changes the classification |
| Classifier.AppendWsMayChange | index.js:59 | appending white space can change it: `a<svg` is not SVG but `a<svg ` is |
| HtmlEscape.ReplaceAll | index.ts:122-126 | one `replace(/c/g, with)` pass leaves no `c` when `with` has none |
| HtmlEscape.EscapeHtmlAppend | index.ts:120-127 | escaping distributes over concatenation |
| HtmlEscape.EscapeHtmlChar | index.ts:122-126 | the five ordered passes map one code point to its entity, or leave it alone |
| HtmlEscape.EscapeHtmlIsEscapeEach | index.ts:120-127 | the five ordered passes equal the per-code-point reference escape: `&` first means no entity is escaped twice |
| HtmlEscape.IsEscapedAt | index.ts:120-127 | in escaped-shaped text, each code point is not special, or is an `&` that opens an entity |
| HtmlEscape.IsEscapedFromAll | index.ts:120-127 | text whose every code point passes that test is escaped-shaped, so the shape is exactly that test |
| HtmlEscape.UnescapeEscapeChar | index.ts:122-126 | decoding stops at the end of each entity, so an encoded character decodes to itself whatever follows |
| HtmlEscape.EscapeEachUnescape | index.ts:120-127 | re-encoding the decoding of escaped-shaped text gives the text back |
| HtmlEscape.EscapeHtmlEscapes | index.ts:120-127 | the output holds none of `<`, `>`, `"`, `'`, and every `&` in it begins one of the five entities |
| HtmlEscape.EscapeHtmlIdentity | index.ts:120-127 | escaping is the identity on text without any of `& < > " '` |
| HtmlEscape.EscapeHtmlRoundTrip | index.ts:120-127 | unescaping the output gives back the input |
| HtmlEscape.EscapeHtmlInjective | index.ts:120-127 | different inputs escape to different outputs |
| HtmlEscape.EscapeHtmlOnto | index.ts:120-127 | every well-escaped text is the escape of its unescape, so escaping is a bijection onto well-escaped text |
| HtmlEscape.EscapeHtmlLength | index.ts:122-126 | the output is the input's length plus 4 per `&`, 3 per `<`, 3 per `>`, 5 per `"` and 5 per `'` |
| ToolArgs.IsArtifactToHtmlArgs | index.js:41-55 | the arguments are valid exactly when they are a non-null object whose content and version are strings with a non-white-space code point; valid arguments are truthy, and so are both values (`isSvgToHtmlArgs` at index.ts:33-50 performs the same test) |
| Templates.Between | index.js:70-273 | a found middle is exactly what lies between the prefix and the suffix |
| Templates.FillAppend | index.js:70-273 | filling a concatenation of templates concatenates their fillings |
| Templates.FillContentFree | index.js:70-273 | a template without a content hole does not depend on the content |
| Templates.FillAroundHole | index.js:70-273 | a page with one content hole is its filled head, that hole's text and its filled tail |
| Templates.PageLayout | index.js:70-273 | between a page's filled head and tail lies exactly the hole's text, and the page opens with its first fixed code point |
| Templates.VersionChangesStayInSpans | index.js:286-668 | for two versions of equal length, the pages have equal length and differ only at positions inside version holes |
| ArtifactToHtml.ConvertSvgToHtml | index.js:63-276 | the result is the "No SVG code" sentence exactly when the markup is blank; otherwise the markup sits raw between the head and the tail |
| ArtifactToHtml.ConvertTsToHtml | index.js:279-671 | the result is the "No TypeScript code" sentence exactly when the code is blank; otherwise the code sits raw between the head and the tail |
| ArtifactToHtml.SvgVersionOnlyInHoles | index.js:76-244 | two equal-length versions of an SVG page differ only inside the version holes of the title and the header |
| ArtifactToHtml.ChartVersionOnlyInHoles | index.js:286-668 | two equal-length versions of a chart page differ only inside the version holes of the title and the header |
| ArtifactToHtml.SvgPageIsNotChartPage | index.js:76 | for the same non-blank content, the SVG page and the chart page are different texts |
| ArtifactToHtml.CallTool | index.js:687-753 | the reply is an error exactly when the call is not a `svg_to_html` call with valid arguments; a successful reply is the SVG page with the content raw in it when the content is SVG, and otherwise the chart page with the content raw in it |
| ArtifactToHtml.NoArgumentsFirst | index.js:691-693 | without arguments the reply is the caught "No arguments provided" error, whatever the tool name |
| ArtifactToHtml.UnknownTool | index.js:738-741 | any other tool name gets `Unknown tool: <name>` as an error |
| ArtifactToHtml.FalsyContentMessage | index.js:700-708 | empty, missing or falsy content gets the "No artifact content provided" error |
| ArtifactToHtml.FalsyVersionMessage | index.js:710-718 | truthy content with a falsy version gets the "No artifact version specified" error |
| ArtifactToHtml.InvalidTruthyArgs | index.js:696-720 | when the content and the version are both truthy but the arguments are invalid (white-space-only text, or a non-string value), the reply is the caught "Invalid arguments for Artifact to HTML tool" error |
| ArtifactToHtml.WhitespaceContentIsInvalid | index.js:696-720 | white-space-only content is truthy, so it skips the content message and ends in the caught "Invalid arguments for Artifact to HTML tool" error |
| ArtifactToHtml.ValidCallRoutes | index.js:724-735 | a valid call succeeds; it gets the SVG page exactly when the content is classified as SVG and otherwise the chart page; it is never a converter's blank-input sentence |
| SvgToHtml.ConvertTsToHtml | index.ts:53-117 | the result is the "No TypeScript code" sentence exactly when the code is blank; otherwise the escaped code sits between the head and the tail |
| SvgToHtml.CodeViewShowsCode | index.ts:103 | the code shown on the page has none of `<`, `>`, `"`, `'`, and it decodes back to the submitted code |
| SvgToHtml.CodeViewVersionOnlyInHoles | index.ts:60-114 | two equal-length versions of a code view differ only inside the version holes of the title, the header and the log line |
| SvgToHtml.CallTool | index.ts:148-210 | the reply is an error exactly when the call is not a `svg_to_html` call with valid arguments; a successful reply is always the code view with the content escaped in it, SVG markup included, and never the blank-code sentence |
| SvgToHtml.NoArgumentsFirst | index.ts:152-154 | without arguments the reply is the caught "No arguments provided" error, whatever the tool name |
| SvgToHtml.UnknownTool | index.ts:195-198 | any other tool name gets `Unknown tool: <name>` as an error |
| SvgToHtml.FalsyContentMessage | index.ts:161-169 | empty, missing or falsy content gets the "No artifact content provided" error |
| SvgToHtml.FalsyVersionMessage | index.ts:171-179 | truthy content with a falsy version gets the "No artifact version specified" error |
| SvgToHtml.InvalidTruthyArgs | index.ts:157-181 | when the content and the version are both truthy but the arguments are invalid (white-space-only text, or a non-string value), the reply is the caught "Invalid arguments for SVG to HTML tool" error |
| SvgToHtml.WhitespaceContentIsInvalid | index.ts:157-181 | white-space-only content ends in the caught "Invalid arguments for SVG to HTML tool" error |
| SvgToHtml.ServersAgreeOnErrors | index.ts:148-210 | both servers reject the same calls; without arguments or under another tool name they give the same reply |

## Left out

- The MCP `Server`, the stdio transport, `setRequestHandler` and the async wiring: SDK plumbing. Only the handler's body is modelled, as a pure function from the tool name and the arguments to the reply text and the error flag.
- The tool description objects and the `ListTools` handler: fixed data with no logic.
- The style sheets, theme script, Chart.js setup and error-reporting script inside the pages: each is a named constant holding a short stand-in, because no property here depends on its wording. The text that surrounds each hole is written out as in the source.
- The in-browser behaviour of the pages (theme toggle in `localStorage`, Chart.js and its plugin, the `suggestedMax` float multiply, the `Math.round` percentage): it runs in a browser, calls foreign libraries and uses floating point.
- `install.js`: file system, `execSync`, operating-system detection and config patching.
- `console.error` start-up logging: I/O.
- The handler's `catch` for a thrown value that is not an `Error`: every throw in the handler throws an `Error`, so only `Error: <message>` is modelled.
- JavaScript strings are sequences of UTF-16 code units and may hold lone surrogates; `string` here is a sequence of Unicode scalar values. No stated property depends on the difference: every pattern is ASCII, the white-space set lies in the Basic Multilingual Plane, and the length formula of `EscapeHtmlLength` holds counting either unit.
- ToolArgs.Get: reads only an object's own properties, since inherited properties such as `toString` cannot be named by the two argument keys.
- ToolArgs.JsValue: JSON numbers are reals, so `NaN` does not arise; JSON cannot carry it.
- ArtifactToHtml.SvgVersionOnlyInHoles: stated for versions of equal length only. With different lengths every later position shifts, so the positionwise statement does not apply.
- ArtifactToHtml.ChartVersionOnlyInHoles: stated for versions of equal length only, for the same reason.
- SvgToHtml.CodeViewVersionOnlyInHoles: stated for versions of equal length only, for the same reason.
- HtmlEscape.ReplaceAll: its contract states only that the replaced code point is gone. The full effect of the five passes is stated by `EscapeHtmlIsEscapeEach` against the per-code-point reference.
- The unused copy of `escapeHtml` in `index.js`: it is the same function as in `index.ts`, and `HtmlEscape.EscapeHtml` models both.
