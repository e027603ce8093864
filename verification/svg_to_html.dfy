/**
  The code-view server (`index.ts`): a single converter that shows the
  artifact as escaped source text in a `<pre><code>` block, and its
  `svg_to_html` tool-call handler, which has no classifier: every valid
  call gets the code view, SVG markup included.

  The page's style sheet and script comment are fixed text with no hole in
  them; each is a named constant holding a short stand-in.
 */
module SvgToHtml {
  import opened JsText
  import opened HtmlEscape
  import opened Templates
  import opened ToolArgs
  import ArtifactToHtml

  const CodeViewStyleRules: string := "\n        /* code view style rules */\n"
  const CodeViewScriptNote: string := "        // the code is only displayed, not run\n"

  /** The code view up to its content hole: the version in the title and in
      the header. */
  const CodeViewHead: Template := [
    Text(DocumentHead + "Converted Artifact ("),
    VersionHole,
    Text(")</title>\n    <style>" + CodeViewStyleRules + "    </style>\n</head>\n<body>\n"
         + "    <header>\n        <h1>Converted Artifact</h1>\n"
         + "        <div class=\"version\">Version: "),
    VersionHole,
    Text("</div>\n    </header>\n    <div class=\"content\">\n        <pre><code>")
  ]

  /** After the content: the version a third time, in the script's log line. */
  const CodeViewTail: Template := [
    Text("</code></pre>\n    </div>\n    <script>\n" + CodeViewScriptNote
         + "        console.log(\"Artifact version: "),
    VersionHole,
    Text("\");\n    </script>\n</body>\n</html>\n  ")
  ]

  /** The code view: the code goes in once, escaped. */
  const CodeViewPage: Template := CodeViewHead + [EscapedContentHole] + CodeViewTail

  lemma CodeViewLayout(version: string, tsCode: string)
    ensures Between(Fill(CodeViewPage, version, tsCode), Fill(CodeViewHead, version, ""), Fill(CodeViewTail, version, ""))
         == Some(EscapeHtml(tsCode))
    ensures Fill(CodeViewPage, version, tsCode)[0] == '\n'
  {
    PageLayout(CodeViewHead, EscapedContentHole, CodeViewTail, version, tsCode);
    assert CodeViewHead[0].text == DocumentHead + "Converted Artifact (";
    assert DocumentHead[0] == '\n';
  }

  /** `convertTsToHtml`: the fixed error sentence for blank code; otherwise
      the code view, whose text between the version-dependent head and tail
      is the escaped code. */
  function ConvertTsToHtml(tsCode: string, version: string): (html: string)
    ensures AllWs(tsCode) <==> html == ArtifactToHtml.NoTsCodeError
    ensures !AllWs(tsCode) ==>
              Between(html, Fill(CodeViewHead, version, ""), Fill(CodeViewTail, version, "")) == Some(EscapeHtml(tsCode))
  {
    if tsCode == [] || IsBlank(tsCode) then ArtifactToHtml.NoTsCodeError
    else
      CodeViewLayout(version, tsCode);
      Fill(CodeViewPage, version, tsCode)
  }

  /** The code shown on the page cannot open or close a tag or an attribute
      value, and it decodes back to the submitted code. */
  lemma CodeViewShowsCode(tsCode: string, version: string)
    requires !AllWs(tsCode)
    ensures var shown := Between(ConvertTsToHtml(tsCode, version), Fill(CodeViewHead, version, ""), Fill(CodeViewTail, version, ""));
            && shown.Some?
            && Unescape(shown.value) == tsCode
            && (forall i :: 0 <= i < |shown.value| ==> !(shown.value[i] in "<>\"'"))
  {
    EscapeHtmlRoundTrip(tsCode);
    EscapeHtmlEscapes(tsCode);
  }

  /** Two equal-length versions of one code view differ only inside the
      three version holes (title, header and log line). */
  lemma CodeViewVersionOnlyInHoles(tsCode: string, v1: string, v2: string)
    requires !AllWs(tsCode) && |v1| == |v2|
    ensures |ConvertTsToHtml(tsCode, v1)| == |ConvertTsToHtml(tsCode, v2)|
    ensures forall i ::
              0 <= i < |ConvertTsToHtml(tsCode, v1)| && ConvertTsToHtml(tsCode, v1)[i] != ConvertTsToHtml(tsCode, v2)[i] ==>
                InVersionSpan(CodeViewPage, v1, tsCode, i)
  {
    VersionChangesStayInSpans(CodeViewPage, v1, v2, tsCode);
  }

  // The tool name, the "no arguments" message, the blank-code sentence and the
  // "no version" reply are word for word those of the artifact-to-HTML
  // server and are taken from it; the two messages below differ.
  const InvalidArgumentsMessage: string := "Invalid arguments for SVG to HTML tool"
  const NoContentText: string :=
    "Error: No artifact content provided. Please provide the TypeScript code from an artifact or ask Claude to create one first."

  /** The `try` block of the `CallToolRequestSchema` handler. */
  function TryCallTool(name: string, args: JsValue): Outcome {
    if !Truthy(args) then Thrown(ArtifactToHtml.NoArgumentsMessage)
    else if name == ArtifactToHtml.ToolName then
      if !IsArtifactToHtmlArgs(args) then
        if !Truthy(Get(args, ContentKey)) then Returned(Response(NoContentText, true))
        else if !Truthy(Get(args, VersionKey)) then Returned(Response(ArtifactToHtml.NoVersionText, true))
        else Thrown(InvalidArgumentsMessage)
      else
        Returned(Response(ConvertTsToHtml(Get(args, ContentKey).s, Get(args, VersionKey).s), false))
    else Returned(Response("Unknown tool: " + name, true))
  }

  /** The tool-call handler: the reply is an error exactly when the call
      is not a `svg_to_html` call with valid arguments; a successful reply
      is always the code view, showing the content escaped (SVG markup
      included: it is shown, never drawn). */
  function CallTool(name: string, args: JsValue): (r: Response)
    ensures r.isError <==> !(Truthy(args) && name == ArtifactToHtml.ToolName && IsArtifactToHtmlArgs(args))
    ensures !r.isError ==>
              var content, version := Get(args, ContentKey).s, Get(args, VersionKey).s;
              && Between(r.text, Fill(CodeViewHead, version, ""), Fill(CodeViewTail, version, "")) == Some(EscapeHtml(content))
              && r.text != ArtifactToHtml.NoTsCodeError
  {
    Catch(TryCallTool(name, args))
  }

  lemma NoArgumentsFirst(name: string, args: JsValue)
    requires !Truthy(args)
    ensures CallTool(name, args) == Response("Error: " + ArtifactToHtml.NoArgumentsMessage, true)
  {
  }

  lemma UnknownTool(name: string, args: JsValue)
    requires Truthy(args) && name != ArtifactToHtml.ToolName
    ensures CallTool(name, args) == Response("Unknown tool: " + name, true)
  {
  }

  lemma FalsyContentMessage(args: JsValue)
    requires Truthy(args) && !Truthy(Get(args, ContentKey))
    ensures CallTool(ArtifactToHtml.ToolName, args) == Response(NoContentText, true)
  {
  }

  lemma FalsyVersionMessage(args: JsValue)
    requires Truthy(args) && Truthy(Get(args, ContentKey)) && !Truthy(Get(args, VersionKey))
    ensures CallTool(ArtifactToHtml.ToolName, args) == Response(ArtifactToHtml.NoVersionText, true)
  {
  }

  /** Arguments whose content and version are both truthy but that fail the
      validator (white-space-only text, or a number, boolean or object in
      place of a string) end in the thrown, then caught, invalid-arguments
      error. */
  lemma InvalidTruthyArgs(args: JsValue)
    requires Truthy(args) && Truthy(Get(args, ContentKey)) && Truthy(Get(args, VersionKey))
    requires !IsArtifactToHtmlArgs(args)
    ensures CallTool(ArtifactToHtml.ToolName, args) == Response("Error: " + InvalidArgumentsMessage, true)
  {
  }

  /** Whitespace-only content is truthy, so it ends in the thrown, then
      caught, invalid-arguments error. */
  lemma WhitespaceContentIsInvalid(fields: map<string, JsValue>, ws: string)
    requires ws != [] && AllWs(ws)
    requires ContentKey in fields && fields[ContentKey] == Str(ws)
    requires Truthy(Get(Obj(fields), VersionKey))
    ensures CallTool(ArtifactToHtml.ToolName, Obj(fields)) == Response("Error: " + InvalidArgumentsMessage, true)
  {
    assert !HasText(fields, ContentKey);
    assert Truthy(Get(Obj(fields), ContentKey));
    InvalidTruthyArgs(Obj(fields));
  }

  /** The two servers accept and reject the same calls; without arguments
      or under another tool name they reply with the same text. */
  lemma ServersAgreeOnErrors(name: string, args: JsValue)
    ensures CallTool(name, args).isError == ArtifactToHtml.CallTool(name, args).isError
    ensures !Truthy(args) || name != ArtifactToHtml.ToolName ==> CallTool(name, args) == ArtifactToHtml.CallTool(name, args)
  {
  }
}
