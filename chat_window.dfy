/** The window side of ChatApplication: the TextFlow the chat history is drawn
    into, and FillChatWindow, FormatContentWithEmojis, FormatName and
    createEmojiMap, which fill it. */
module ChatWindow {
  import opened JavaText
  import opened ChatLog

  /** The style a Text node is given: none, "-fx-fill: blue;" or
      "-fx-font-weight: bold;". */
  datatype Style = Plain | Blue | Bold

  /** A child node of the TextFlow: a Text with its string and style, or the
      ImageView of an emoji, named by the resource path of its image. */
  datatype Fragment = TextNode(text: string, style: Style) | ImageNode(path: string)

  /** The TextFlow of the window, reduced to its list of children. */
  class TextFlow {
    var children: seq<Fragment>
  }

  /** createEmojiMap: the emoji tokens and the image resources shown for them.
      Every token starts with ':'. */
  function CreateEmojiMap(): (emojis: map<string, string>)
    ensures forall token :: token in emojis ==> StartsWith(token, ":")
  {
    map[":)" := "/smile_happy.gif", ":(" := "/smile_sad.gif"]
  }

  /** FormatName: the ellipsis when the sender is the previous one, and the
      current name otherwise. The two cases can only be told apart when the
      current name is not itself "...". */
  function FormatName(previousName: string, currentName: string): (shown: string)
    ensures shown == "..." || shown == currentName
    ensures shown == "..." <==> previousName == currentName || currentName == "..."
  {
    if previousName == currentName then "..." else currentName
  }

  /** The node FormatContentWithEmojis adds for one word: an image exactly
      when the word is a key of the emoji map (the startsWith(":") test never
      rejects a key), and otherwise the word in bold followed by a space. */
  function WordFragment(word: string): (fragment: Fragment)
    ensures fragment.ImageNode? <==> word in CreateEmojiMap()
    ensures word in CreateEmojiMap() ==> fragment.path == CreateEmojiMap()[word]
    ensures word !in CreateEmojiMap() ==> fragment == TextNode(word + " ", Bold)
  {
    var emojis := CreateEmojiMap();
    if StartsWith(word, ":") && word in emojis then ImageNode(emojis[word])
    else TextNode(word + " ", Bold)
  }

  /** The nodes added for a list of words, one per word, in order. */
  function WordFragments(words: seq<string>): seq<Fragment>
  {
    seq(|words|, k requires 0 <= k < |words| => WordFragment(words[k]))
  }

  /** The nodes added for a message's content: one per word of
      content.split("\\s+"). */
  function ContentFragments(content: string): seq<Fragment>
  {
    WordFragments(Split(content))
  }

  /** The sender label of message i: its nickname for the first message,
      otherwise FormatName against the message just before it. A later
      message shows "..." exactly when its sender is the one before it (for a
      nickname that is not itself "..."), and its own nickname otherwise. */
  function NameLabel(history: seq<ChatMessage>, i: nat): (shown: string)
    requires i < |history|
    ensures i == 0 ==> shown == history[0].nickname
    ensures shown == "..." || shown == history[i].nickname
    ensures i > 0 && history[i].nickname != "..." ==>
      (shown == "..." <==> history[i - 1].nickname == history[i].nickname)
  {
    if i == 0 then history[0].nickname
    else FormatName(history[i - 1].nickname, history[i].nickname)
  }

  /** The nodes drawn for message i: timestamp, blue label, the content's
      words, a line break. The block opens with the timestamp and the label,
      closes with the line break and holds one node per word of the content
      in between. */
  function MessageFragments(history: seq<ChatMessage>, i: nat): (block: seq<Fragment>)
    requires i < |history|
    ensures |block| == |Split(history[i].content)| + 3
    ensures block[0] == TextNode(history[i].timestamp, Plain)
    ensures block[1] == TextNode(NameLabel(history, i), Blue)
    ensures block[|block| - 1] == TextNode("\n", Plain)
  {
    [TextNode(history[i].timestamp, Plain), TextNode(NameLabel(history, i), Blue)] +
    ContentFragments(history[i].content) +
    [TextNode("\n", Plain)]
  }

  /** The blocks of nodes, one per message, in message order. */
  function Blocks(history: seq<ChatMessage>): seq<seq<Fragment>>
  {
    seq(|history|, i requires 0 <= i < |history| => MessageFragments(history, i))
  }

  /** The blocks laid end to end. */
  function Flatten(blocks: seq<seq<Fragment>>): seq<Fragment>
  {
    if |blocks| == 0 then [] else Flatten(blocks[..|blocks| - 1]) + blocks[|blocks| - 1]
  }

  /** The nodes drawn for the whole history. The blue labels a reader sees
      down the window are one per message, in message order. */
  function Rendering(history: seq<ChatMessage>): (drawn: seq<Fragment>)
    ensures |BlueTexts(drawn)| == |history|
    ensures forall i :: 0 <= i < |history| ==> BlueTexts(drawn)[i] == NameLabel(history, i)
  {
    BlockLabels(history);
    Flatten(Blocks(history))
  }

  /** How FillChatWindow ends: the history drawn, the "corrupt or broken file"
      alert, or the IndexOutOfBoundsException that history.get(0) throws on an
      empty list (after the window was cleared). */
  datatype WindowOutcome = Filled | CorruptFileAlert | EmptyHistoryError

  function OutcomeOf(history: seq<ChatMessage>): WindowOutcome
  {
    if |history| == 0 then EmptyHistoryError
    else if history[0].nickname == ParseErrorNickname then CorruptFileAlert
    else Filled
  }

  /** The outcome for the lines of a file that reads without fault. */
  function LinesOutcome(lines: seq<string>): WindowOutcome
  {
    if |lines| <= 2 then EmptyHistoryError
    else if WellFormedLog(lines) then Filled
    else CorruptFileAlert
  }

  /** FormatContentWithEmojis: one node per word of the content, appended to
      the flow. */
  method FormatContentWithEmojis(flow: TextFlow, content: string)
    modifies flow
    ensures flow.children == old(flow.children) + ContentFragments(content)
  {
    var emojis := CreateEmojiMap();
    var words := Split(content);
    for j := 0 to |words|
      invariant flow.children == old(flow.children) + WordFragments(words[..j])
    {
      var word := words[j];
      var node: Fragment;
      if StartsWith(word, ":") && word in emojis {
        node := ImageNode(emojis[word]);
      } else {
        node := TextNode(word + " ", Bold);
      }
      WordFragmentsSnoc(words, j);
      flow.children := flow.children + [node];
    }
    assert words[..|words|] == words;
  }

  lemma WordFragmentsSnoc(words: seq<string>, j: nat)
    requires j < |words|
    ensures WordFragments(words[..j + 1]) == WordFragments(words[..j]) + [WordFragment(words[j])]
  {
  }

  /** FillChatWindow: clears the flow, stops on an empty history or on the
      error record, and otherwise appends each message's nodes in order. */
  method FillChatWindow(flow: TextFlow, history: seq<ChatMessage>) returns (outcome: WindowOutcome)
    modifies flow
    ensures outcome == OutcomeOf(history)
    ensures flow.children == if outcome == Filled then Rendering(history) else []
  {
    flow.children := [];
    if |history| == 0 {
      return EmptyHistoryError;
    }
    if history[0].nickname == ParseErrorNickname {
      return CorruptFileAlert;
    }
    for i := 0 to |history|
      invariant flow.children == Flatten(Blocks(history)[..i])
    {
      var time := TextNode(history[i].timestamp, Plain);
      var name: Fragment;
      if i == 0 {
        name := TextNode(history[i].nickname, Blue);
      } else {
        name := TextNode(FormatName(history[i - 1].nickname, history[i].nickname), Blue);
      }
      ghost var before := flow.children;
      flow.children := flow.children + [time, name];
      FormatContentWithEmojis(flow, history[i].content);
      flow.children := flow.children + [TextNode("\n", Plain)];
      RenderStep(history, i, before);
    }
    assert Blocks(history)[..|history|] == Blocks(history);
    outcome := Filled;
  }

  lemma RenderStep(history: seq<ChatMessage>, i: nat, before: seq<Fragment>)
    requires i < |history| && before == Flatten(Blocks(history)[..i])
    ensures Flatten(Blocks(history)[..i + 1]) ==
      before + [TextNode(history[i].timestamp, Plain), TextNode(NameLabel(history, i), Blue)] +
      ContentFragments(history[i].content) + [TextNode("\n", Plain)]
  {
    var head := [TextNode(history[i].timestamp, Plain), TextNode(NameLabel(history, i), Blue)];
    var body := ContentFragments(history[i].content);
    var tail := [TextNode("\n", Plain)];
    FlattenStep(Blocks(history), i);
    assert Blocks(history)[i] == MessageFragments(history, i) == head + body + tail;
    ConcatRegroup(before, head, body, tail);
  }

  lemma ConcatRegroup(a: seq<Fragment>, b: seq<Fragment>, c: seq<Fragment>, d: seq<Fragment>)
    ensures a + (b + c + d) == a + b + c + d
  {
  }

  lemma FlattenStep(blocks: seq<seq<Fragment>>, i: nat)
    requires i < |blocks|
    ensures Flatten(blocks[..i + 1]) == Flatten(blocks[..i]) + blocks[i]
  {
    assert blocks[..i + 1][..i] == blocks[..i];
  }

  // Properties of the rendering.

  /** The strings of the blue Text nodes, in order: the sender labels. */
  function BlueTexts(fragments: seq<Fragment>): seq<string>
  {
    if |fragments| == 0 then []
    else
      var last := fragments[|fragments| - 1];
      BlueTexts(fragments[..|fragments| - 1]) +
      (if last.TextNode? && last.style == Blue then [last.text] else [])
  }

  lemma {:induction false} BlueTextsAppend(a: seq<Fragment>, b: seq<Fragment>)
    ensures BlueTexts(a + b) == BlueTexts(a) + BlueTexts(b)
    decreases |b|
  {
    if |b| == 0 {
      assert a + b == a;
    } else {
      var init := b[..|b| - 1];
      assert (a + b)[..|a + b| - 1] == a + init;
      BlueTextsAppend(a, init);
    }
  }

  lemma {:induction false} NoBlueInWords(words: seq<string>)
    ensures BlueTexts(WordFragments(words)) == []
    decreases |words|
  {
    if |words| > 0 {
      var init := words[..|words| - 1];
      assert WordFragments(words)[..|words| - 1] == WordFragments(init);
      NoBlueInWords(init);
    }
  }

  /** The content of a message never adds a blue node. */
  lemma ContentHasNoLabel(content: string)
    ensures BlueTexts(ContentFragments(content)) == []
  {
    NoBlueInWords(Split(content));
  }

  lemma MessageLabel(history: seq<ChatMessage>, i: nat)
    requires i < |history|
    ensures BlueTexts(MessageFragments(history, i)) == [NameLabel(history, i)]
  {
    var head := [TextNode(history[i].timestamp, Plain), TextNode(NameLabel(history, i), Blue)];
    var body := ContentFragments(history[i].content);
    var tail := [TextNode("\n", Plain)];
    BlueTextsAppend(head + body, tail);
    BlueTextsAppend(head, body);
    ContentHasNoLabel(history[i].content);
    assert head[..1] == [TextNode(history[i].timestamp, Plain)];
    assert BlueTexts(tail) == [];
  }

  /** Laid end to end, blocks that each hold one blue node show those nodes'
      strings in block order. */
  lemma {:induction false} BlueTextsFlatten(blocks: seq<seq<Fragment>>, labels: seq<string>)
    requires |blocks| == |labels|
    requires forall i :: 0 <= i < |blocks| ==> BlueTexts(blocks[i]) == [labels[i]]
    ensures BlueTexts(Flatten(blocks)) == labels
    decreases |blocks|
  {
    if |blocks| > 0 {
      var n := |blocks| - 1;
      BlueTextsFlatten(blocks[..n], labels[..n]);
      BlueTextsAppend(Flatten(blocks[..n]), blocks[n]);
      assert labels == labels[..n] + [labels[n]];
    }
  }

  lemma BlockLabels(history: seq<ChatMessage>)
    ensures |BlueTexts(Flatten(Blocks(history)))| == |history|
    ensures forall i :: 0 <= i < |history| ==>
      BlueTexts(Flatten(Blocks(history)))[i] == NameLabel(history, i)
  {
    var labels := seq(|history|, i requires 0 <= i < |history| => NameLabel(history, i));
    var blocks := Blocks(history);
    forall i | 0 <= i < |blocks|
      ensures BlueTexts(blocks[i]) == [labels[i]]
    {
      MessageLabel(history, i);
    }
    BlueTextsFlatten(blocks, labels);
  }

  /** For a parsed history the nickname guard above always holds: every
      nickname ends with ": ", so a label is "..." exactly for a repeated
      sender. */
  lemma ParsedLabelRule(lines: seq<string>, i: nat)
    requires !IsParseError(ParseLog(lines)) && i < |ParseLog(lines)|
    ensures var h := ParseLog(lines);
      i > 0 ==> (NameLabel(h, i) == "..." <==> h[i - 1].nickname == h[i].nickname)
    ensures var h := ParseLog(lines);
      NameLabel(h, i) != "..." ==> NameLabel(h, i) == h[i].nickname
  {
    var h := ParseLog(lines);
    ParsedNicknames(lines);
    assert EndsWith(h[i].nickname, ": ");
  }

  /** The window's verdict on a parsed file: an empty history (a file of at
      most two lines) throws, the error record raises the alert, and a
      well-formed log is drawn. */
  lemma ParsedOutcome(lines: seq<string>)
    ensures OutcomeOf(ParseLog(lines)) == LinesOutcome(lines)
  {
    ParsedNicknames(lines);
    if |lines| >= 3 && WellFormedLog(lines) {
      MessageNickname(lines, 0);
    }
  }

  // Worked examples.

  /** Three messages from one sender and one from another: the labels read
      the name, "...", "...", then the other name. */
  lemma RepeatedSenderLabels()
    ensures var history := [
        ChatMessage("[10:00]", "Alice: ", "hello"),
        ChatMessage("[10:01]", "Alice: ", "are you there"),
        ChatMessage("[10:02]", "Alice: ", "hello?"),
        ChatMessage("[10:03]", "Bob: ", "yes")];
      BlueTexts(Rendering(history)) == ["Alice: ", "...", "...", "Bob: "]
  {
    var history := [
        ChatMessage("[10:00]", "Alice: ", "hello"),
        ChatMessage("[10:01]", "Alice: ", "are you there"),
        ChatMessage("[10:02]", "Alice: ", "hello?"),
        ChatMessage("[10:03]", "Bob: ", "yes")];
  }

  /** An emoji between spaces becomes its image; the other words stay text. */
  lemma ContentWithEmoji()
    ensures ContentFragments("hi :) there") ==
      [TextNode("hi ", Bold), ImageNode("/smile_happy.gif"), TextNode("there ", Bold)]
  {
    SplitSentence();
    SentenceWords();
    var words := ["hi", ":)", "there"];
    assert WordFragments(words) == [WordFragment("hi"), WordFragment(":)"), WordFragment("there")];
  }

  lemma SentenceWords()
    ensures WordFragment("hi") == TextNode("hi ", Bold)
    ensures WordFragment(":)") == ImageNode("/smile_happy.gif")
    ensures WordFragment("there") == TextNode("there ", Bold)
  {
    assert "hi"[..1] == "h" && "there"[..1] == "t";
  }

  /** An emoji glued to a word is not recognised. */
  lemma EmojiInsideWord()
    ensures ContentFragments("a:)") == [TextNode("a:) ", Bold)]
  {
    var word := "a:)";
    assert NoWhitespace(word) by {
      assert word[0] == 'a' && word[1] == ':' && word[2] == ')';
    }
    assert Split(word) == [word];
    assert word[..1] == "a";
    assert WordFragment(word) == TextNode("a:) ", Bold);
    assert WordFragments([word]) == [WordFragment(word)];
  }

  /** Empty content still yields one bold space. */
  lemma EmptyContent()
    ensures ContentFragments("") == [TextNode(" ", Bold)]
  {
    SplitEmpty();
    assert WordFragment("") == TextNode(" ", Bold);
    assert WordFragments([""]) == [WordFragment("")];
  }
}
