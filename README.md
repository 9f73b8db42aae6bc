# Chat Viewer core, modelled in Dafny

Chat Viewer is a small JavaFX desktop program. Its Upload button opens a file
dialog. The chosen file must be a `.msg` chat log. The program reads the log
as records of three lines (`Time:…`, `Name:…`, `Message:…`). It then draws the
messages into a `TextFlow`:

- a timestamp;
- a blue sender label, which becomes `...` when the sender repeats;
- one bold node per word of the message;
- emoji images in place of the tokens `:)` and `:(`.

This project models all of that logic from `ChatApplication.java`:

- `IsFileValid`;
- `ParseChatFile`;
- `FillChatWindow`;
- `FormatContentWithEmojis`;
- `createEmojiMap`;
- `FormatName`;
- the branch of the upload handler that ties them together.

Modules:

- `JavaText` (`java_text.dfy`) holds the Java string operations the core
  relies on:
  - `startsWith`;
  - `lastIndexOf`;
  - `split("\\s+")`, modelled over Java's whitespace class: space and the
    characters tab through carriage return.

  `Split` is characterised without a regular-expression engine:
  - no word contains whitespace;
  - only the first word may be empty;
  - joining the words with single spaces gives the input with every
    whitespace run squashed to one space and a trailing run removed;
  - the result is `[""]` exactly for the empty string.
- `ChatLog` (`chat_log.dfy`) is the parser. The file is a sequence of
  `readLine` results. A `readLine` may throw (`IoFault`); past the end of the
  file it returns null. `ParseChatFile` is the loop of the source. It is
  proved equal to the closed form `ParseLog`:
  - a file of at most two lines gives an empty history;
  - a file of exactly `4k-1` lines whose triplets carry the three prefixes
    gives `k` messages;
  - anything else, and any I/O fault, gives the single `PARSE-ERR` record.
- `ChatWindow` (`chat_window.dfy`):
  - The window's `TextFlow` is a class whose `children` field the methods
    update.
  - `Rendering` is the specification of what `FillChatWindow` draws. Each
    message becomes a block of nodes: timestamp, label, content words, line
    break.
  - `WindowOutcome` says how `FillChatWindow` ends: the history is drawn, the
    "corrupt or broken file" alert is shown, or `history.get(0)` throws on an
    empty history.
- `FileSelection` (`file_selection.dfy`) holds the extension test.
- `Upload` (`upload.dfy`) is the upload handler's branch: the dialog is
  cancelled, the file is refused, or it is parsed and drawn.

What the code accepts, as modelled:

- **Separator lines.** After every triplet the code reads one more line into
  `buffer` and discards it (ChatApplication.java:233). Once the loop ends, a
  non-null `buffer` throws (:236-239). The comment at :235 expects only
  stray trailing newlines here. In effect, consecutive triplets must be
  separated by exactly one line of any content, and no line may follow the
  last triplet. A file of two back-to-back triplets (6 lines) is refused.
  (`ParseSucceedsIff`, `SeparatorLinesIgnored`)
- **Short files.** For a file of fewer than three lines the loop condition
  (:215-217) fails at once, and the history is empty. (`ParseLog`)
- **Empty history.** `FillChatWindow` clears the window and then calls
  `history.get(0)` on the empty list (:123-126), which throws.
  (`ParsedOutcome`)
- **Bold words.** A bold word node carries the word followed by one space
  (`"hi "`, :168), not the bare word. (`ContentWithEmoji`)

## Model

| member | source | states |
|---|---|---|
| JavaText.StartsWith | src/main/java/com/example/chatviewer/ChatApplication.java:221 | Holds exactly when the prefix fits in the string and agrees with it character by character from the start |
| JavaText.LastIndexOf | src/main/java/com/example/chatviewer/ChatApplication.java:106 | The result is -1 or an index holding the character, and no later index holds it |
| JavaText.Split | src/main/java/com/example/chatviewer/ChatApplication.java:165 | The words contain no whitespace. Only the first may be empty. Joined by single spaces they give the input with each whitespace run squashed and a trailing run dropped. The result is [""] exactly when the input is empty |
| JavaText.SplitEmpty | src/main/java/com/example/chatviewer/ChatApplication.java:165 | Splitting "" gives [""] |
| JavaText.SplitBlank | src/main/java/com/example/chatviewer/ChatApplication.java:165 | Splitting any non-empty string of whitespace only gives no words |
| JavaText.SplitLeading | src/main/java/com/example/chatviewer/ChatApplication.java:165 | A string that starts with whitespace and holds a non-whitespace character splits into an empty first word followed by at least one more |
| JavaText.SplitTrailing | src/main/java/com/example/chatviewer/ChatApplication.java:165 | For any non-empty input the last word, if there is one, is not empty: the empty pieces at the end are dropped |
| JavaText.SplitTrailingExample | src/main/java/com/example/chatviewer/ChatApplication.java:165 | "a b " splits into "a", "b" |
| JavaText.SplitSentence | src/main/java/com/example/chatviewer/ChatApplication.java:165 | "hi :) there" splits into "hi", ":)", "there" |
| ChatLog.ParseLog | src/main/java/com/example/chatviewer/ChatApplication.java:215-217 | The specification of the parse: the history is empty exactly for a file of at most two lines |
| ChatLog.ReadTriplet | src/main/java/com/example/chatviewer/ChatApplication.java:215-217 | The loop condition: a thrown read stops the triplet at the faulty read, which lies within the three reads from the current position after good lines only; otherwise either three consecutive lines are returned, or the file ends less than three lines on |
| ChatLog.ParseChatFile | src/main/java/com/example/chatviewer/ChatApplication.java:206-253 | Any I/O fault gives exactly the PARSE-ERR record. Otherwise the result equals ParseLog of the file's lines, so there is no partial history |
| ChatLog.EndOfInput | src/main/java/com/example/chatviewer/ChatApplication.java:235-239 | When the file ends before a triplet is complete, a pending separator line makes the result the error record; otherwise the result is the messages read so far |
| ChatLog.WrongLengthFails | src/main/java/com/example/chatviewer/ChatApplication.java:233-239 | A file of 3 or more lines whose count is not 3 mod 4 is refused with the PARSE-ERR record |
| ChatLog.BadTripletFails | src/main/java/com/example/chatviewer/ChatApplication.java:221-224 | A triplet without its three prefixes makes the whole file a PARSE-ERR record |
| ChatLog.CompleteLogParses | src/main/java/com/example/chatviewer/ChatApplication.java:215-234 | 4k-1 lines whose k triplets are well formed parse to exactly those k messages |
| ChatLog.ParseSucceedsIff | src/main/java/com/example/chatviewer/ChatApplication.java:215-239 | For k >= 1, the parse yields k real messages if and only if the file has 4k-1 lines and every triplet has its prefixes |
| ChatLog.ParsedFields | src/main/java/com/example/chatviewer/ChatApplication.java:221-230 | Every message of a successful parse comes from a triplet at lines 4i..4i+2 carrying the three prefixes |
| ChatLog.MessageNickname | src/main/java/com/example/chatviewer/ChatApplication.java:229 | A parsed nickname ends with ": " and so is never PARSE-ERR |
| ChatLog.ParsedNicknames | src/main/java/com/example/chatviewer/ChatApplication.java:245-248 | In a successful parse every nickname ends with ": ". A PARSE-ERR nickname appears only in the error result |
| ChatLog.SeparatorLinesIgnored | src/main/java/com/example/chatviewer/ChatApplication.java:233 | Two files that differ only in their separator lines (4i+3) parse to the same result |
| ChatLog.EncodeParseRoundTrip | src/main/java/com/example/chatviewer/ChatApplication.java:226-230 | Writing entries in the file format with any separator lines and parsing them back yields each entry, with the bracketed time and the ": " suffix on the name |
| ChatWindow.CreateEmojiMap | src/main/java/com/example/chatviewer/ChatApplication.java:188-193 | Every emoji token starts with ':' |
| ChatWindow.FormatContentWithEmojis | src/main/java/com/example/chatviewer/ChatApplication.java:161-185 | Appends one node per split word, in order, and leaves the earlier children untouched |
| ChatWindow.FillChatWindow | src/main/java/com/example/chatviewer/ChatApplication.java:120-159 | An empty history throws and the error record raises the alert; both leave the window cleared. Otherwise the window holds exactly Rendering(history) |
| ChatWindow.WordFragment | src/main/java/com/example/chatviewer/ChatApplication.java:168-182 | A word becomes an image exactly when it is an emoji-map key, so the startsWith(":") test never decides anything; the image is the key's resource. Every other word becomes the bold word plus a space |
| ChatWindow.ContentHasNoLabel | src/main/java/com/example/chatviewer/ChatApplication.java:161-185 | Message content never adds a blue node |
| ChatWindow.MessageLabel | src/main/java/com/example/chatviewer/ChatApplication.java:136-157 | Each message's block holds exactly one blue node, its sender label |
| ChatWindow.MessageFragments | src/main/java/com/example/chatviewer/ChatApplication.java:136-157 | A message's block opens with its timestamp and then its blue label, closes with the line break, and holds one node per word of its content in between |
| ChatWindow.Rendering | src/main/java/com/example/chatviewer/ChatApplication.java:133-158 | The specification of the drawn window. Its blue labels are one per message, in message order, each the label NameLabel gives |
| ChatWindow.FormatName | src/main/java/com/example/chatviewer/ChatApplication.java:196-203 | The result is "..." or the current name, and it is "..." exactly when the two names are equal or the current name is itself "..." |
| ChatWindow.NameLabel | src/main/java/com/example/chatviewer/ChatApplication.java:138-148 | The first message shows its nickname. A later one shows "..." exactly when its sender equals the previous sender (for a nickname that is not itself "..."). Any label is "..." or the nickname |
| ChatWindow.ParsedLabelRule | src/main/java/com/example/chatviewer/ChatApplication.java:196-203 | For a parsed history the label is "..." exactly for a repeated sender, and otherwise it is the nickname |
| ChatWindow.ParsedOutcome | src/main/java/com/example/chatviewer/ChatApplication.java:120-131 | On a parsed file the window throws for at most two lines, draws a well-formed log and raises the alert otherwise |
| ChatWindow.RepeatedSenderLabels | src/main/java/com/example/chatviewer/ChatApplication.java:144-148 | Three messages from Alice then one from Bob show the labels "Alice: ", "...", "...", "Bob: " |
| ChatWindow.ContentWithEmoji | src/main/java/com/example/chatviewer/ChatApplication.java:165-182 | "hi :) there" draws the bold "hi ", the happy-smile image and the bold "there " |
| ChatWindow.EmojiInsideWord | src/main/java/com/example/chatviewer/ChatApplication.java:165-169 | An emoji glued to a word ("a:)") stays a bold word |
| ChatWindow.EmptyContent | src/main/java/com/example/chatviewer/ChatApplication.java:165-181 | Empty content still draws one bold space |
| FileSelection.IsFileValid | src/main/java/com/example/chatviewer/ChatApplication.java:101-117 | The text after the last dot, counted only when that dot is neither first nor last, must be "msg". So a name is accepted if and only if it ends in ".msg" with at least one character before the dot |
| FileSelection.AcceptedNames | src/main/java/com/example/chatviewer/ChatApplication.java:106-114 | "chat.msg" and "log.tar.msg" are accepted |
| FileSelection.RefusedBareNames | src/main/java/com/example/chatviewer/ChatApplication.java:107 | ".msg" (dot first) and "msg" (no dot) are refused |
| FileSelection.RefusedUpperCase | src/main/java/com/example/chatviewer/ChatApplication.java:112 | "chat.MSG" is refused: the comparison is case-sensitive |
| FileSelection.RefusedOtherEndings | src/main/java/com/example/chatviewer/ChatApplication.java:107-112 | "chat.msg." (dot last) and "chat.msgs" are refused |
| Upload.UploadChosenFile | src/main/java/com/example/chatviewer/ChatApplication.java:64-82 | Cancelling and a refused name leave the window untouched. A file with an I/O fault raises the alert. Otherwise the outcome is decided by the line count and the triplets, and a well-formed log is drawn in full |

## Left out

- The window layout in `start` is not modelled: scroll pane, sizes, spacing, title and scene. Nor is `main`. They are UI construction with no logic.
- The file dialog itself is not modelled. It becomes the `chosen` parameter: a name, or None for a cancel.
- Remembering the previous folder (`previousFolderPath`) and the path label are not modelled. They only affect where the next dialog opens and what the corner label shows.
- `File.getName()` is not modelled. `IsFileValid` works on the name string directly.
- Opening and reading the file are not modelled. They become a sequence of `readLine` results. A file that cannot be opened is an `IoFault` at the first read: it reaches the same catch block.
- Loading an emoji's image from the resources is not modelled. Neither is the 16×16 sizing of its view. An image node records only the resource path; a missing resource, which would throw in the source, is not modelled.
- The alert dialogs are not modelled as windows. They are outcome values, and their modal wait is not modelled.
- The `Text` object built for every word before the emoji test has no visible effect, so it is not modelled.
- `ChatMessage.java` is not part of this model. `ParseChatFile` sets only the error record's nickname (:246-248). Here its timestamp and content are `""`. They are never read, because `FillChatWindow` returns at :130 before touching them.
- The regular-expression engine is not modelled. `Split` characterises `split("\\s+")` directly, over the ASCII whitespace that `\s` matches by default.
