/**
 * The style injector of scripts/add_custom_styles.py: every HTML file that
 * contains the literal anchor `<body` gets a `<head>` element holding a
 * fixed CSS block inserted in front of every occurrence of that anchor.
 */
module StyleInjector {
  import opened Text

  /** The literal the script looks for and inserts in front of. */
  const Anchor: string := "<body"

  /** The element inserted in front of each anchor: the payload wrapped in `<head>` … `</head>`. */
  function Block(payload: string): (b: string) {
    "<head>" + payload + "</head>"
  }

  // The payload, written out as the script's triple-quoted literal has it,
  // one CSS rule per constant. Long lines are cut into short literals only
  // because the verifier's cost of proving a literal free of `<` grows
  // quickly with its length; the concatenation is the source text unchanged.

  /** The `src` line of the font face. */
  const FontSource: string :=
    "        src: url('https://"
    + "fastly.jsdelivr.net/gh/"
    + "projectnoonnu/"
    + "noonfonts_twelve@1.0/"
    + "RIDIBatang.woff') "
    + "format('woff');\n"

  /** The `@font-face` rule declaring the RIDIBatang web font. */
  const FontFaceRule: string :=
    "    @font-face {\n"
    + "        font-family: "
    + "'RIDIBatang';\n"
    + FontSource
    + "        font-weight: normal;\n"
    + "        font-style: normal;\n"
    + "    }\n"

  /** The `:root` rule setting the system font variable. */
  const RootRule: string :=
    "    :root {\n"
    + "        --font-family-system: "
    + "'RIDIBatang', -apple-system, "
    + "BlinkMacSystemFont, sans-serif;\n"
    + "    }\n"

  /** The `body` rule overriding font family and line height. */
  const BodyRule: string :=
    "    body {\n"
    + "        font-family: "
    + "'RIDIBatang', -apple-system, "
    + "BlinkMacSystemFont, sans-serif "
    + "!important;\n"
    + "        line-height: 180% "
    + "!important;\n"
    + "    }\n"

  /** Everything between `<style>` and `</style>`. */
  const StyleRules: string := "\n" + FontFaceRule + "\n" + RootRule + "\n" + BodyRule + "    "

  /** The script's `custom_styles` constant: a `<style>` element between a newline and the closing indentation. */
  const CustomStyles: string := "\n    " + "<style>" + StyleRules + "</style>" + "\n    "

  /**
   * One file's contents after the script has seen it: when the anchor
   * occurs, every occurrence gets the block inserted in front of it
   * (Python's `str.replace` without a count); otherwise the contents stay.
   */
  function Inject(content: string, payload: string): (r: string) {
    if Contains(content, Anchor) then
      ReplaceAll(content, Anchor, Block(payload) + Anchor)
    else
      content
  }

  /**
   * The per-file loop: entry `i` of `files` is the contents of the `i`-th
   * path the glob found. A file is written back, with its injected contents,
   * exactly when it contains the anchor; `rewritten` is the set of files
   * written.
   */
  method RewriteFiles(files: array<string>, payload: string) returns (rewritten: set<int>)
    modifies files
    ensures rewritten == set i | 0 <= i < files.Length && Contains(old(files[i]), Anchor)
    ensures forall i :: 0 <= i < files.Length ==> files[i] == Inject(old(files[i]), payload)
    ensures forall i :: 0 <= i < files.Length && i !in rewritten ==> files[i] == old(files[i])
  {
    rewritten := {};
    for i := 0 to files.Length
      invariant rewritten == set j | 0 <= j < i && Contains(old(files[j]), Anchor)
      invariant forall j :: 0 <= j < i ==> files[j] == Inject(old(files[j]), payload)
      invariant forall j :: i <= j < files.Length ==> files[j] == old(files[j])
    {
      var content := files[i];
      if Contains(content, Anchor) {
        var newHead := Block(payload);
        content := ReplaceAll(content, Anchor, newHead + Anchor);
        files[i] := content;
        rewritten := rewritten + {i};
      }
    }
  }

  /** The script's entry point, over the contents of the files the glob found. */
  method InjectCustomStyles(files: array<string>) returns (rewritten: set<int>)
    modifies files
    ensures rewritten == set i | 0 <= i < files.Length && Contains(old(files[i]), Anchor)
    ensures forall i :: 0 <= i < files.Length ==> files[i] == Inject(old(files[i]), CustomStyles)
  {
    rewritten := RewriteFiles(files, CustomStyles);
  }

  // ---------------------------------------------------------------------
  // What one file's rewrite does

  /** The guard only decides whether the file is written: the value is `str.replace`'s either way. */
  lemma InjectIsReplaceAll(content: string, payload: string)
    ensures Inject(content, payload) == ReplaceAll(content, Anchor, Block(payload) + Anchor)
  {
    if !Contains(content, Anchor) {
      ReplaceAllWithoutNeedle(content, Anchor, Block(payload) + Anchor);
    }
  }

  /**
   * The contents are cut at the anchors into anchor-free pieces; the input is
   * those pieces joined by the anchor, and the output is the same pieces, in
   * the same order, joined by block + anchor: every anchor, not only the first,
   * gets exactly one block right in front of it.
   */
  lemma InjectAtEveryAnchor(content: string, payload: string)
    ensures |Split(content, Anchor)| == Count(content, Anchor) + 1
    ensures forall k :: 0 <= k < |Split(content, Anchor)| ==> !Contains(Split(content, Anchor)[k], Anchor)
    ensures content == Join(Split(content, Anchor), Anchor)
    ensures Inject(content, payload) == Join(Split(content, Anchor), Block(payload) + Anchor)
  {
    SplitCount(content, Anchor);
    SplitPiecesAreFree(content, Anchor);
    SplitJoinRoundTrip(content, Anchor);
    InjectIsReplaceAll(content, payload);
    ReplaceAllIsJoinOfSplit(content, Anchor, Block(payload) + Anchor);
  }

  /** The output grows by one block per occurrence of the anchor in the input. */
  lemma InjectLength(content: string, payload: string)
    ensures |Inject(content, payload)| == |content| + Count(content, Anchor) * |Block(payload)|
  {
    InjectIsReplaceAll(content, payload);
    ReplaceAllLength(content, Anchor, Block(payload) + Anchor);
  }

  /** A file changes exactly when it contains the anchor. */
  lemma InjectChangesIffAnchor(content: string, payload: string)
    ensures Inject(content, payload) == content <==> !Contains(content, Anchor)
  {
    if Contains(content, Anchor) {
      InjectLength(content, payload);
      var c := Count(content, Anchor);
      var d := |Block(payload)|;
      MulStep(c - 1, d);
      assert c * d >= d > 0;
      assert |Inject(content, payload)| > |content|;
    }
  }

  /**
   * Cut at the anchors, the output consists of the input's pieces with the
   * block appended to every piece but the last.
   */
  lemma InjectSplit(content: string, payload: string)
    requires !Contains(payload, Anchor)
    ensures Split(Inject(content, payload), Anchor) == SuffixAllButLast(Split(content, Anchor), Block(payload))
  {
    var ps := Split(content, Anchor);
    var b := Block(payload);
    var qs := SuffixAllButLast(ps, b);
    AnchorFacts();
    BlockFreeOfAnchor(payload);
    InjectAtEveryAnchor(content, payload);
    JoinSuffixAllButLast(ps, b, Anchor);
    forall k | 0 <= k < |qs| ensures !Contains(qs[k], Anchor) {
      if k < |qs| - 1 {
        assert b[0] !in Anchor[1..];
        NoOccurrenceAcrossSeam(ps[k], b, Anchor);
      }
    }
    SplitOfJoin(qs, Anchor);
  }

  /** The block brings no anchor: the output has as many anchors as the input, so a rewritten file still has one. */
  lemma InjectKeepsAnchorCount(content: string, payload: string)
    requires !Contains(payload, Anchor)
    ensures Count(Inject(content, payload), Anchor) == Count(content, Anchor)
    ensures Contains(Inject(content, payload), Anchor) <==> Contains(content, Anchor)
  {
    InjectSplit(content, payload);
    SplitCount(content, Anchor);
    SplitCount(Inject(content, payload), Anchor);
  }

  /** Deleting the block in front of every anchor gives back the original contents. */
  lemma RemoveBlocksRestores(content: string, payload: string)
    requires !Contains(payload, Anchor)
    ensures ReplaceAll(Inject(content, payload), Block(payload) + Anchor, Anchor) == content
  {
    var ps := Split(content, Anchor);
    var w := Block(payload) + Anchor;
    AnchorFacts();
    BlockFreeOfAnchor(payload);
    InjectAtEveryAnchor(content, payload);
    WrappedNoSelfOverlap(Block(payload), Anchor);
    forall k | 0 <= k < |ps| ensures !Contains(ps[k], w) {
      NotContainsLongerNeedle(ps[k], Block(payload), Anchor);
    }
    SplitOfJoin(ps, w);
    ReplaceAllIsJoinOfSplit(Inject(content, payload), w, Anchor);
  }

  /** Running the script twice puts two blocks in front of every anchor. */
  lemma InjectTwice(content: string, payload: string)
    requires !Contains(payload, Anchor)
    ensures Inject(Inject(content, payload), payload)
         == ReplaceAll(content, Anchor, Block(payload) + Block(payload) + Anchor)
  {
    var ps := Split(content, Anchor);
    var b := Block(payload);
    var once := Inject(content, payload);
    InjectSplit(content, payload);
    InjectAtEveryAnchor(once, payload);
    JoinSuffixAllButLast(ps, b, b + Anchor);
    assert b + (b + Anchor) == b + b + Anchor;
    ReplaceAllIsJoinOfSplit(content, Anchor, b + b + Anchor);
  }

  /** The rewrite is not idempotent: a second run changes every file the first run wrote. */
  lemma InjectNotIdempotent(content: string, payload: string)
    requires !Contains(payload, Anchor) && Contains(content, Anchor)
    ensures Inject(Inject(content, payload), payload) != Inject(content, payload)
  {
    InjectKeepsAnchorCount(content, payload);
    InjectChangesIffAnchor(Inject(content, payload), payload);
  }

  // ---------------------------------------------------------------------
  // Facts about the anchor, the block and the payload

  lemma AnchorFacts()
    ensures Anchor[0] == '<' && '<' !in Anchor[1..] && '>' !in Anchor
    ensures NoSelfOverlap(Anchor)
  {
    FirstCharUniqueNoSelfOverlap(Anchor);
  }

  /** A tag-like literal whose only `<` is its first character, followed by something other than `b`. */
  lemma TagFreeOfAnchor(t: string)
    requires |t| > 1 && Anchor[0] !in t[1..] && t[1] !in Anchor[1..]
    ensures !Contains(t, Anchor)
  {
    NotContainsWithoutFirstChar(t[1..], Anchor);
    NoOccurrenceAcrossSeam(t[..1], t[1..], Anchor);
    assert t[..1] + t[1..] == t;
  }

  /** The block built from an anchor-free payload is anchor-free, opens with `<` and closes with `>`. */
  lemma BlockFreeOfAnchor(payload: string)
    requires !Contains(payload, Anchor)
    ensures !Contains(Block(payload), Anchor)
    ensures Block(payload)[0] == '<' && Block(payload)[|Block(payload)| - 1] == '>'
  {
    AnchorFacts();
    TagFreeOfAnchor("<head>");
    TagFreeOfAnchor("</head>");
    NoOccurrenceAcrossSeam("<head>", payload, Anchor);
    NoOccurrenceAcrossSeam("<head>" + payload, "</head>", Anchor);
  }

  /** The script's own payload satisfies the one fact the model needs of it. */
  lemma CustomStylesFreeOfAnchor()
    ensures !Contains(CustomStyles, Anchor)
  {
    AnchorFacts();
    RulesHaveNoTag();
    NotContainsWithoutFirstChar(StyleRules, Anchor);
    NotContainsWithoutFirstChar("\n    ", Anchor);
    TagFreeOfAnchor("<style>");
    TagFreeOfAnchor("</style>");
    var x1 := "\n    " + "<style>";
    NoOccurrenceAcrossSeam("\n    ", "<style>", Anchor);
    NoOccurrenceAcrossSeam(x1, StyleRules, Anchor);
    var x2 := x1 + StyleRules;
    NoOccurrenceAcrossSeam(x2, "</style>", Anchor);
    var x3 := x2 + "</style>";
    NoOccurrenceAcrossSeam(x3, "\n    ", Anchor);
  }

  lemma FontSourceHasNoTag()
    ensures '<' !in FontSource
  {
    assert '<' !in "        src: url('https://";
    assert '<' !in "fastly.jsdelivr.net/gh/";
    assert '<' !in "projectnoonnu/";
    assert '<' !in "noonfonts_twelve@1.0/";
    assert '<' !in "RIDIBatang.woff') ";
    assert '<' !in "format('woff');\n";
  }

  lemma FontFaceRuleHasNoTag()
    ensures '<' !in FontFaceRule
  {
    FontSourceHasNoTag();
    assert '<' !in "    @font-face {\n";
    assert '<' !in "        font-family: ";
    assert '<' !in "'RIDIBatang';\n";
    assert '<' !in "        font-weight: normal;\n";
    assert '<' !in "        font-style: normal;\n";
    assert '<' !in "    }\n";
  }

  lemma RootRuleHasNoTag()
    ensures '<' !in RootRule
  {
    assert '<' !in "    :root {\n";
    assert '<' !in "        --font-family-system: ";
    assert '<' !in "'RIDIBatang', -apple-system, ";
    assert '<' !in "BlinkMacSystemFont, sans-serif;\n";
    assert '<' !in "    }\n";
  }

  lemma BodyRuleHasNoTag()
    ensures '<' !in BodyRule
  {
    assert '<' !in "    body {\n";
    assert '<' !in "        font-family: ";
    assert '<' !in "'RIDIBatang', -apple-system, ";
    assert '<' !in "BlinkMacSystemFont, sans-serif ";
    assert '<' !in "!important;\n";
    assert '<' !in "        line-height: 180% ";
    assert '<' !in "!important;\n";
    assert '<' !in "    }\n";
  }

  /** No `<` occurs in the CSS rules, so no tag and no anchor can. */
  lemma RulesHaveNoTag()
    ensures '<' !in StyleRules
  {
    FontFaceRuleHasNoTag();
    RootRuleHasNoTag();
    BodyRuleHasNoTag();
  }
}
