/**
  The conversion routine: an external Markdown engine renders the HTML, and a
  post-pass inserts a blank line after every block-level closing tag that is
  followed by a newline, so that the blog platform keeps paragraph spacing.
 */
module Converter {
  import opened GoStrings
  import opened Spacing

  /** The block-level closing tags after which the post-pass adds a blank line, in pass order. */
  const BlockTags: seq<string> := [
    "</p>",
    "</h1>", "</h2>", "</h3>", "</h4>", "</h5>", "</h6>",
    "</ul>", "</ol>",
    "</pre>",
    "</blockquote>",
    "</table>",
    "</div>"
  ]

  /** One pass of the post-pass loop: every "tag\n" becomes "tag\n\n". */
  function Pass(html: string, tag: string): string
  {
    ReplaceAll(html, tag + "\n", tag + "\n\n")
  }

  /** The passes for `tags`, run one after the other in list order. */
  function Passes(html: string, tags: seq<string>): string
    decreases |tags|
  {
    if tags == [] then html
    else
      var n := |tags| - 1;
      Pass(Passes(html, tags[..n]), tags[n])
  }

  /** Every listed tag is a closing tag. */
  lemma BlockTagsAreClosingTags()
    ensures forall e :: e in BlockTags ==> ClosingTag(e)
  {
  }

  /** No tag is listed twice. */
  lemma BlockTagsDistinct()
    ensures forall i, j :: 0 <= i < j < |BlockTags| ==> BlockTags[i] != BlockTags[j]
  {
  }

  /** The listed tags are closing tags, none listed twice. */
  lemma BlockTagsWellFormed()
    ensures WellFormedTags(BlockTags)
  {
    BlockTagsAreClosingTags();
    BlockTagsDistinct();
  }

  /** With well-formed tags, the passes run in list order equal the reference definition. */
  lemma {:induction false} PassesIsSpaced(html: string, tags: seq<string>)
    requires WellFormedTags(tags)
    ensures Passes(html, tags) == Spaced(html, tags)
    decreases |tags|
  {
    if tags == [] {
      BreaksNone(html);
      SpacedIdentityIff(html, tags);
    } else {
      var n := |tags| - 1;
      var init, f := tags[..n], tags[n];
      assert tags == init + [f];
      WellFormedSnoc(init, f);
      PassesIsSpaced(html, init);
      ReplaceAllIsSpaced(Spaced(html, init), f);
      SpacedCompose(html, init, f);
    }
  }

  /**
    One pass over a closing tag adds one newline per occurrence of "tag\n"
    and creates or destroys no occurrence of any closing tag followed by a
    newline, its own included.
   */
  lemma PassKeepsMatches(html: string, e: string, f: string)
    requires ClosingTag(e) && ClosingTag(f)
    ensures |Pass(html, e)| == |html| + Count(html, e + "\n")
    ensures Count(Pass(html, e), f + "\n") == Count(html, f + "\n")
  {
    ReplaceAllIsSpaced(html, e);
    BreaksPreserved(html, [e], f);
    BreaksSingleIsCount(Pass(html, e), f);
    BreaksSingleIsCount(html, f);
  }

  /** The whole post-pass, stated on the list of block tags. */
  lemma BlankLinesFacts(html: string)
    ensures Passes(html, BlockTags) == Spaced(html, BlockTags)
    ensures |Passes(html, BlockTags)| == |html| + MatchTotal(html, BlockTags)
    ensures Collapse(Passes(html, BlockTags), BlockTags) == html
    ensures Passes(html, BlockTags) == html <==> forall e :: e in BlockTags ==> !Contains(html, e + "\n")
  {
    BlockTagsWellFormed();
    PassesIsSpaced(html, BlockTags);
    BreaksIsMatchTotal(html, BlockTags);
    CollapseSpaced(html, BlockTags);
    SpacedIdentityIff(html, BlockTags);
    MatchTotalZeroIff(html, BlockTags);
  }

  /** Two paragraphs, each closed and followed by a newline, get a blank line after each. */
  lemma TwoParagraphsExample()
    ensures Passes("<p>a" + "</p>" + "\n" + "<p>b" + "</p>" + "\n", BlockTags)
         == "<p>a" + "</p>" + "\n\n" + "<p>b" + "</p>" + "\n\n"
  {
    TwoBlocksSpaced("<p>a", "<p>b", "</p>", BlockTags);
    BlankLinesFacts("<p>a" + "</p>" + "\n" + "<p>b" + "</p>" + "\n");
  }

  /** List items, inline code and table cells are not block tags. */
  lemma InlineTagsNotListed()
    ensures ClosingTag("</li>") && "</li>" !in BlockTags
    ensures ClosingTag("</code>") && "</code>" !in BlockTags
    ensures ClosingTag("</td>") && "</td>" !in BlockTags
  {
  }

  /** A list item closed and followed by a newline passes through unchanged. */
  lemma ListItemExample()
    ensures Passes("<li>a" + "</li>" + "\n", BlockTags) == "<li>a" + "</li>" + "\n"
  {
    SpacedNoNewline([], "<li>a", BlockTags);
    assert [] + "<li>a" == "<li>a";
    BlockTagsAreClosingTags();
    InlineTagsNotListed();
    UnlistedTagCopied("<li>a", "</li>", BlockTags);
    BlankLinesFacts("<li>a" + "</li>" + "\n");
  }

  /**
    The post-pass: for each block tag in turn, every "tag\n" becomes
    "tag\n\n". The result doubles exactly the newlines that follow a block
    tag, grows by the number of such newlines, gives the input back when the
    doubled newlines are removed, and equals the input exactly when no block
    tag is followed by a newline.
   */
  method AddBlankLinesBetweenBlocks(html: string) returns (result: string)
    ensures result == Passes(html, BlockTags)
    ensures result == Spaced(html, BlockTags)
    ensures |result| == |html| + MatchTotal(html, BlockTags)
    ensures Collapse(result, BlockTags) == html
    ensures result == html <==> forall e :: e in BlockTags ==> !Contains(html, e + "\n")
  {
    var blockElements := BlockTags;
    result := html;
    for i := 0 to |blockElements|
      invariant result == Passes(html, blockElements[..i])
    {
      var element := blockElements[i];
      assert blockElements[..i + 1][..i] == blockElements[..i];
      result := ReplaceAll(result, element + "\n", element + "\n\n");
    }
    assert blockElements[..|blockElements|] == blockElements;
    assert result == Passes(html, BlockTags);
    BlankLinesFacts(html);
  }

  // -----------------------------------------------------------------------
  // Convert: the engine, then the post-pass
  // -----------------------------------------------------------------------

  datatype Option<T> = None | Some(value: T)

  /** Markdown extensions handed to the engine. */
  datatype Extension = GFM | Table

  /** Parser options handed to the engine. */
  datatype ParserOption = WithAutoHeadingID

  /** Renderer options handed to the engine. */
  datatype RendererOption = WithUnsafe

  /** How the engine is configured for one conversion. */
  datatype EngineConfig = EngineConfig(
    extensions: seq<Extension>,
    parserOptions: seq<ParserOption>,
    rendererOptions: seq<RendererOption>)

  /** An error reported by the engine. */
  datatype Error = Error(message: string)

  /** What the engine returns: the rendered HTML or an error. */
  datatype EngineResult = Rendered(html: string) | Failed(err: Error)

  /**
    The configuration Convert builds: GitHub-flavoured Markdown and tables
    always, raw HTML passed through unescaped, and automatic heading IDs
    exactly when they are asked for.
   */
  function Configure(enableIDs: bool): (cfg: EngineConfig)
    ensures GFM in cfg.extensions && Table in cfg.extensions
    ensures WithUnsafe in cfg.rendererOptions
    ensures WithAutoHeadingID in cfg.parserOptions <==> enableIDs
  {
    EngineConfig([GFM, Table], if enableIDs then [WithAutoHeadingID] else [], [WithUnsafe])
  }

  /**
    Converts Markdown to blog-ready HTML. The engine is a parameter; when it
    fails Convert returns the empty string and the engine's error, otherwise
    the engine's HTML after the blank-line post-pass and no error.
   */
  method Convert(engine: (EngineConfig, string) -> EngineResult, markdown: string, enableIDs: bool)
    returns (html: string, err: Option<Error>)
    ensures engine(Configure(enableIDs), markdown).Failed? ==>
              html == "" && err == Some(engine(Configure(enableIDs), markdown).err)
    ensures engine(Configure(enableIDs), markdown).Rendered? ==>
              err == None
              && html == Spaced(engine(Configure(enableIDs), markdown).html, BlockTags)
              && Collapse(html, BlockTags) == engine(Configure(enableIDs), markdown).html
  {
    var parserOptions: seq<ParserOption> := [];
    if enableIDs {
      parserOptions := parserOptions + [WithAutoHeadingID];
    }
    var md := EngineConfig([GFM, Table], parserOptions, [WithUnsafe]);
    assert md == Configure(enableIDs);
    var rendered := engine(md, markdown);
    if rendered.Failed? {
      return "", Some(rendered.err);
    }
    html := AddBlankLinesBetweenBlocks(rendered.html);
    err := None;
  }
}
