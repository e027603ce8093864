/**
  The artifact-to-HTML server: the SVG page and the chart page converters,
  and the `svg_to_html` tool-call handler that validates the arguments,
  classifies the content and picks a converter.

  The pages' style sheets and scripts are long fixed text with no hole in
  them; each is a named constant holding a short stand-in, since no
  property here depends on their wording.
 */
module ArtifactToHtml {
  import opened JsText
  import opened HtmlEscape
  import opened Templates
  import opened ToolArgs
  import opened Classifier

  const NoSvgCodeError: string := "Error: No SVG code provided"
  const NoTsCodeError: string := "Error: No TypeScript code provided"

  /** The dark-mode switch markup both pages put in their header. */
  const ThemeToggleMarkup: string :=
    "        <div class=\"theme-toggle\">\n"
    + "            <span class=\"theme-toggle-label\">Dark Mode</span>\n"
    + "            <label class=\"switch\">\n"
    + "                <input type=\"checkbox\" id=\"theme-toggle\">\n"
    + "                <span class=\"slider\"></span>\n"
    + "            </label>\n"
    + "        </div>\n"

  const SvgStyleRules: string := "\n        /* SVG page style rules */\n"
  const SvgThemeScript: string := "\n        // theme toggle kept in localStorage\n"

  /** The SVG page up to its content hole: the version in the title and in
      the header. */
  const SvgHead: Template := [
    Text(DocumentHead + "SVG Visualization ("),
    VersionHole,
    Text(")</title>\n    <style>" + SvgStyleRules + "    </style>\n</head>\n<body>\n"
         + "    <div class=\"header\">\n        <div>\n"
         + "            <h1>SVG Visualization <span class=\"version\">"),
    VersionHole,
    Text("</span></h1>\n        </div>\n" + ThemeToggleMarkup + "    </div>\n"
         + "    <div class=\"container\">\n        <div class=\"svg-container\">\n            ")
  ]

  const SvgTail: Template := [
    Text("\n        </div>\n    </div>\n    <script>" + SvgThemeScript
         + "    </script>\n</body>\n</html>\n  ")
  ]

  /** The SVG page: the markup goes in raw, once. */
  const SvgPage: Template := SvgHead + [ContentHole] + SvgTail

  const ChartLibraryScripts: string :=
    "    <script src=\"https://cdn.jsdelivr.net/npm/chart.js@4.4.2/dist/chart.umd.min.js\"></script>\n"
    + "    <script src=\"https://cdn.jsdelivr.net/npm/chartjs-plugin-datalabels@2.2.0/dist/chartjs-plugin-datalabels.min.js\"></script>\n"
  const ChartStyleRules: string := "\n        /* chart page style rules */\n"
  const ChartScriptSetup: string :=
    "\n        // theme toggle, chart defaults and the createBarChart, createLineChart\n"
    + "        // and createPieChart helpers, inside a try block and an IIFE\n"
  const ChartScriptCatch: string := "        // catch: report the error in the chart container\n"

  /** The chart page up to its content hole: the version in the title and
      in the header. */
  const ChartHead: Template := [
    Text(DocumentHead + "Chart Visualization ("),
    VersionHole,
    Text(")</title>\n" + ChartLibraryScripts + "    <style>" + ChartStyleRules
         + "    </style>\n</head>\n<body>\n    <div class=\"header\">\n        <div>\n"
         + "            <h1>Chart Visualization <span class=\"version\">"),
    VersionHole,
    Text("</span></h1>\n        </div>\n" + ThemeToggleMarkup + "    </div>\n"
         + "    <div class=\"container\" id=\"chart-container\">\n"
         + "        <!-- Charts will be dynamically created here -->\n    </div>\n    \n"
         + "    <script>" + ChartScriptSetup
         + "                \n                // Execute the TypeScript code\n                ")
  ]

  const ChartTail: Template := [
    Text("\n            })();\n" + ChartScriptCatch + "    </script>\n</body>\n</html>\n  ")
  ]

  /** The chart page: the code goes in raw, once, as script to run. */
  const ChartPage: Template := ChartHead + [ContentHole] + ChartTail

  lemma SvgPageLayout(version: string, svgCode: string)
    ensures Between(Fill(SvgPage, version, svgCode), Fill(SvgHead, version, ""), Fill(SvgTail, version, "")) == Some(svgCode)
    ensures Fill(SvgPage, version, svgCode)[0] == '\n'
  {
    PageLayout(SvgHead, ContentHole, SvgTail, version, svgCode);
    assert SvgHead[0].text == DocumentHead + "SVG Visualization (";
    assert DocumentHead[0] == '\n';
  }

  lemma ChartPageLayout(version: string, tsCode: string)
    ensures Between(Fill(ChartPage, version, tsCode), Fill(ChartHead, version, ""), Fill(ChartTail, version, "")) == Some(tsCode)
    ensures Fill(ChartPage, version, tsCode)[0] == '\n'
  {
    PageLayout(ChartHead, ContentHole, ChartTail, version, tsCode);
    assert ChartHead[0].text == DocumentHead + "Chart Visualization (";
    assert DocumentHead[0] == '\n';
  }

  /** `convertSvgToHtml`: the fixed error sentence for blank markup;
      otherwise the SVG page, whose text between the version-dependent head
      and the fixed tail is the markup itself. */
  function ConvertSvgToHtml(svgCode: string, version: string): (html: string)
    ensures AllWs(svgCode) <==> html == NoSvgCodeError
    ensures !AllWs(svgCode) ==> Between(html, Fill(SvgHead, version, ""), Fill(SvgTail, version, "")) == Some(svgCode)
  {
    if svgCode == [] || IsBlank(svgCode) then NoSvgCodeError
    else
      SvgPageLayout(version, svgCode);
      Fill(SvgPage, version, svgCode)
  }

  /** `convertTsToHtml`: the fixed error sentence for blank code; otherwise
      the chart page, whose text between the version-dependent head and the
      fixed tail is the code itself. */
  function ConvertTsToHtml(tsCode: string, version: string): (html: string)
    ensures AllWs(tsCode) <==> html == NoTsCodeError
    ensures !AllWs(tsCode) ==> Between(html, Fill(ChartHead, version, ""), Fill(ChartTail, version, "")) == Some(tsCode)
  {
    if tsCode == [] || IsBlank(tsCode) then NoTsCodeError
    else
      ChartPageLayout(version, tsCode);
      Fill(ChartPage, version, tsCode)
  }

  /** Two equal-length versions of one SVG page differ only inside the two
      version holes (the title and the header). */
  lemma SvgVersionOnlyInHoles(svgCode: string, v1: string, v2: string)
    requires !AllWs(svgCode) && |v1| == |v2|
    ensures |ConvertSvgToHtml(svgCode, v1)| == |ConvertSvgToHtml(svgCode, v2)|
    ensures forall i ::
              0 <= i < |ConvertSvgToHtml(svgCode, v1)| && ConvertSvgToHtml(svgCode, v1)[i] != ConvertSvgToHtml(svgCode, v2)[i] ==>
                InVersionSpan(SvgPage, v1, svgCode, i)
  {
    VersionChangesStayInSpans(SvgPage, v1, v2, svgCode);
  }

  /** Two equal-length versions of one chart page differ only inside the
      two version holes (the title and the header). */
  lemma ChartVersionOnlyInHoles(tsCode: string, v1: string, v2: string)
    requires !AllWs(tsCode) && |v1| == |v2|
    ensures |ConvertTsToHtml(tsCode, v1)| == |ConvertTsToHtml(tsCode, v2)|
    ensures forall i ::
              0 <= i < |ConvertTsToHtml(tsCode, v1)| && ConvertTsToHtml(tsCode, v1)[i] != ConvertTsToHtml(tsCode, v2)[i] ==>
                InVersionSpan(ChartPage, v1, tsCode, i)
  {
    VersionChangesStayInSpans(ChartPage, v1, v2, tsCode);
  }

  /** For the same non-blank content the two pages differ: their titles
      start differently right after the shared head. */
  lemma SvgPageIsNotChartPage(content: string, version: string)
    requires !AllWs(content)
    ensures ConvertSvgToHtml(content, version) != ConvertTsToHtml(content, version)
  {
    var k := |DocumentHead|;
    FillStartsWithText(SvgPage, version, content);
    FillStartsWithText(ChartPage, version, content);
    assert SvgPage[0].text == DocumentHead + "SVG Visualization (";
    assert ChartPage[0].text == DocumentHead + "Chart Visualization (";
    assert Fill(SvgPage, version, content)[k] == SvgPage[0].text[k] == 'S';
    assert Fill(ChartPage, version, content)[k] == ChartPage[0].text[k] == 'C';
  }

  const ToolName: string := "svg_to_html"
  const NoArgumentsMessage: string := "No arguments provided"
  const InvalidArgumentsMessage: string := "Invalid arguments for Artifact to HTML tool"
  const NoContentText: string :=
    "Error: No artifact content provided. Please provide the TypeScript or SVG code from an artifact or ask Claude to create one first."
  const NoVersionText: string :=
    "Error: No artifact version specified. Please specify a version (e.g., 'v1', 'latest')."

  /** The `try` block of the `CallToolRequestSchema` handler. */
  function TryCallTool(name: string, args: JsValue): Outcome {
    if !Truthy(args) then Thrown(NoArgumentsMessage)
    else if name == ToolName then
      if !IsArtifactToHtmlArgs(args) then
        if !Truthy(Get(args, ContentKey)) then Returned(Response(NoContentText, true))
        else if !Truthy(Get(args, VersionKey)) then Returned(Response(NoVersionText, true))
        else Thrown(InvalidArgumentsMessage)
      else
        var content := Get(args, ContentKey).s;
        var version := Get(args, VersionKey).s;
        var html := if IsSvgContent(content) then ConvertSvgToHtml(content, version)
                    else ConvertTsToHtml(content, version);
        Returned(Response(html, false))
    else Returned(Response("Unknown tool: " + name, true))
  }

  /** The tool-call handler: the reply is an error exactly when the call
      is not a `svg_to_html` call with valid arguments; a successful reply
      is the SVG page or the chart page with the content in it, raw. */
  function CallTool(name: string, args: JsValue): (r: Response)
    ensures r.isError <==> !(Truthy(args) && name == ToolName && IsArtifactToHtmlArgs(args))
    ensures !r.isError ==>
              var content, version := Get(args, ContentKey).s, Get(args, VersionKey).s;
              if IsSvgContent(content) then
                Between(r.text, Fill(SvgHead, version, ""), Fill(SvgTail, version, "")) == Some(content)
              else
                Between(r.text, Fill(ChartHead, version, ""), Fill(ChartTail, version, "")) == Some(content)
  {
    Catch(TryCallTool(name, args))
  }

  /** Without arguments the call fails before the tool name is looked at. */
  lemma NoArgumentsFirst(name: string, args: JsValue)
    requires !Truthy(args)
    ensures CallTool(name, args) == Response("Error: " + NoArgumentsMessage, true)
  {
  }

  lemma UnknownTool(name: string, args: JsValue)
    requires Truthy(args) && name != ToolName
    ensures CallTool(name, args) == Response("Unknown tool: " + name, true)
  {
  }

  /** Empty, missing or otherwise falsy content gets the "no content"
      reply, whatever the version. */
  lemma FalsyContentMessage(args: JsValue)
    requires Truthy(args) && !Truthy(Get(args, ContentKey))
    ensures CallTool(ToolName, args) == Response(NoContentText, true)
  {
  }

  lemma FalsyVersionMessage(args: JsValue)
    requires Truthy(args) && Truthy(Get(args, ContentKey)) && !Truthy(Get(args, VersionKey))
    ensures CallTool(ToolName, args) == Response(NoVersionText, true)
  {
  }

  /** Arguments whose content and version are both truthy but that fail the
      validator (white-space-only text, or a number, boolean or object in
      place of a string) end in the thrown, then caught, invalid-arguments
      error. */
  lemma InvalidTruthyArgs(args: JsValue)
    requires Truthy(args) && Truthy(Get(args, ContentKey)) && Truthy(Get(args, VersionKey))
    requires !IsArtifactToHtmlArgs(args)
    ensures CallTool(ToolName, args) == Response("Error: " + InvalidArgumentsMessage, true)
  {
  }

  /** Whitespace-only content is a non-empty string, so it is truthy: it
      skips the "no content" reply and ends in the thrown, then caught,
      invalid-arguments error. */
  lemma WhitespaceContentIsInvalid(fields: map<string, JsValue>, ws: string)
    requires ws != [] && AllWs(ws)
    requires ContentKey in fields && fields[ContentKey] == Str(ws)
    requires Truthy(Get(Obj(fields), VersionKey))
    ensures CallTool(ToolName, Obj(fields)) == Response("Error: " + InvalidArgumentsMessage, true)
  {
    assert !HasText(fields, ContentKey);
    assert Truthy(Get(Obj(fields), ContentKey));
    InvalidTruthyArgs(Obj(fields));
  }

  /** A valid call succeeds; it is routed to the SVG page exactly when the
      content is classified as SVG, and otherwise to the chart page; it is
      never a converter's blank-input sentence. */
  lemma ValidCallRoutes(args: JsValue)
    requires IsArtifactToHtmlArgs(args)
    ensures var r := CallTool(ToolName, args);
            var content, version := Get(args, ContentKey).s, Get(args, VersionKey).s;
            && !r.isError
            && (r.text == ConvertSvgToHtml(content, version) <==> IsSvgContent(content))
            && (!IsSvgContent(content) ==> r.text == ConvertTsToHtml(content, version))
            && r.text != NoSvgCodeError && r.text != NoTsCodeError
  {
    var content, version := Get(args, ContentKey).s, Get(args, VersionKey).s;
    SvgPageIsNotChartPage(content, version);
  }
}
