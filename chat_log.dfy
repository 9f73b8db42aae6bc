/** The chat-history parser of ChatApplication: a `.msg` file read line by line
    with BufferedReader.readLine, three lines per message, turned into a list
    of ChatMessage records or into a single error record. */
module ChatLog {
  import opened JavaText

  /** The three public fields of a ChatMessage. */
  datatype ChatMessage = ChatMessage(timestamp: string, nickname: string, content: string)

  const ParseErrorNickname: string := "PARSE-ERR"

  /** The record the parser returns for a broken file: a fresh ChatMessage whose
      only field set is the nickname. */
  const ParseErrorRecord: ChatMessage := ChatMessage("", ParseErrorNickname, "")

  const TimePrefix: string := "Time:"
  const NamePrefix: string := "Name:"
  const MessagePrefix: string := "Message:"

  /** What one call of readLine produced: a line, or an IOException. The end of
      the sequence is the end of the file, where readLine returns null. */
  datatype ReadResult = Line(text: string) | IoFault

  /** The outcome of one readLine call at a position of the file. */
  datatype Read = Got(line: string) | EndOfFile | Thrown

  function ReadAt(stream: seq<ReadResult>, pos: nat): Read
  {
    if pos >= |stream| then EndOfFile
    else match stream[pos]
      case Line(text) => Got(text)
      case IoFault => Thrown
  }

  predicate HasIoFault(stream: seq<ReadResult>)
  {
    exists i :: 0 <= i < |stream| && stream[i].IoFault?
  }

  /** The lines of a file whose every read succeeds. */
  function Texts(stream: seq<ReadResult>): (lines: seq<string>)
    ensures |lines| == |stream|
    ensures forall i :: 0 <= i < |stream| && stream[i].Line? ==> lines[i] == stream[i].text
  {
    seq(|stream|, i requires 0 <= i < |stream| => if stream[i].Line? then stream[i].text else "")
  }

  /** One message from its three lines: the text after each prefix, the time
      put in brackets and ": " put after the name. */
  function MakeMessage(time: string, name: string, message: string): ChatMessage
    requires StartsWith(time, TimePrefix) && StartsWith(name, NamePrefix)
    requires StartsWith(message, MessagePrefix)
  {
    ChatMessage("[" + time[5..] + "]", name[5..] + ": ", message[8..])
  }

  /** The triplet of message `i` sits on lines 4i, 4i+1 and 4i+2 and carries
      the three prefixes; line 4i+3 is the line read after it and ignored. */
  predicate TripletOk(lines: seq<string>, i: nat)
  {
    4 * i + 2 < |lines| &&
    StartsWith(lines[4 * i], TimePrefix) &&
    StartsWith(lines[4 * i + 1], NamePrefix) &&
    StartsWith(lines[4 * i + 2], MessagePrefix)
  }

  function MessageAt(lines: seq<string>, i: nat): ChatMessage
    requires TripletOk(lines, i)
  {
    MakeMessage(lines[4 * i], lines[4 * i + 1], lines[4 * i + 2])
  }

  /** The number of triplets a file of 4k-1 lines holds. */
  function MessageCount(lines: seq<string>): nat
  {
    (|lines| + 1) / 4
  }

  /** A file the parser accepts with at least one message: k triplets, each
      but the last followed by one line of any content, so 4k-1 lines. */
  predicate WellFormedLog(lines: seq<string>)
  {
    |lines| % 4 == 3 &&
    forall i :: 0 <= i < MessageCount(lines) ==> TripletOk(lines, i)
  }

  /** What ParseChatFile returns for a file whose reads all succeed: nothing
      for a file of fewer than three lines, whatever they hold; the messages
      of a well-formed log, in file order; the error record alone otherwise.
      The result is empty exactly for a file of at most two lines;
      ParseSucceedsIff says when it is a list of real messages. */
  function ParseLog(lines: seq<string>): (history: seq<ChatMessage>)
    ensures history == [] <==> |lines| <= 2
  {
    assert |lines| >= 3 && WellFormedLog(lines) ==> MessageCount(lines) >= 1;
    if |lines| < 3 then []
    else if WellFormedLog(lines) then
      seq(MessageCount(lines),
          i requires 0 <= i < MessageCount(lines) && TripletOk(lines, i) => MessageAt(lines, i))
    else [ParseErrorRecord]
  }

  predicate IsParseError(history: seq<ChatMessage>)
  {
    history == [ParseErrorRecord]
  }

  /** What the loop condition of ParseChatFile obtains: a fault, the end of
      the file before three lines were read, or three lines. */
  datatype TripletRead = TripletFault | TripletEnd | Triplet(line1: string, line2: string, line3: string)

  /** The read at `next` throws, and it is one of the three reads from `pos`,
      after good lines only. */
  predicate FaultWithin(stream: seq<ReadResult>, pos: nat, next: nat)
  {
    pos <= next < |stream| && next < pos + 3 && stream[next].IoFault? &&
    forall j :: pos <= j < next ==> stream[j].Line?
  }

  /** The loop condition of ParseChatFile: up to three readLine calls,
      stopping at the first null or the first read that throws. Returns what
      was read and the position after it; after a throw, the position of the
      read that threw. */
  method ReadTriplet(stream: seq<ReadResult>, pos: nat) returns (t: TripletRead, next: nat)
    requires pos <= |stream|
    ensures t.TripletFault? ==> HasIoFault(stream)
    ensures t.TripletFault? ==> FaultWithin(stream, pos, next)
    ensures !t.TripletFault? ==> pos <= next <= |stream| && forall j :: pos <= j < next ==> stream[j].Line?
    ensures t.TripletEnd? ==> next == |stream| < pos + 3
    ensures t.Triplet? ==>
      next == pos + 3 &&
      stream[pos] == Line(t.line1) && stream[pos + 1] == Line(t.line2) && stream[pos + 2] == Line(t.line3)
  {
    next := pos;
    var r1 := ReadAt(stream, next);
    if r1.Thrown? { return TripletFault, next; }
    if r1.EndOfFile? { return TripletEnd, next; }
    next := next + 1;
    var r2 := ReadAt(stream, next);
    if r2.Thrown? { return TripletFault, next; }
    if r2.EndOfFile? { return TripletEnd, next; }
    next := next + 1;
    var r3 := ReadAt(stream, next);
    if r3.Thrown? { return TripletFault, next; }
    if r3.EndOfFile? { return TripletEnd, next; }
    next := next + 1;
    t := Triplet(r1.line, r2.line, r3.line);
  }

  /** ParseChatFile. The loop condition reads three lines (stopping at the
      first null); a triplet with a wrong prefix throws; after each message one
      more line is read into `buffer` and dropped; a non-null `buffer` once the
      loop ends throws. Every exception, an IOException included, lands in the
      same handler, which returns the error record alone; here each throwing
      path returns that record at once. */
  method ParseChatFile(stream: seq<ReadResult>) returns (history: seq<ChatMessage>)
    ensures HasIoFault(stream) ==> history == [ParseErrorRecord]
    ensures !HasIoFault(stream) ==> history == ParseLog(Texts(stream))
  {
    ghost var lines := Texts(stream);
    history := [];
    var buffer: Option<string> := None;
    var pos := 0;
    while true
      invariant pos <= |stream|
      invariant forall j :: 0 <= j < pos ==> stream[j].Line?
      invariant |history| == 0 ==> pos == 0 && buffer.None?
      invariant |history| > 0 ==>
        (buffer.None? && pos == |stream| == 4 * |history| - 1) ||
        (buffer.Some? && pos == 4 * |history| <= |stream|)
      invariant forall i :: 0 <= i < |history| ==> TripletOk(lines, i) && history[i] == MessageAt(lines, i)
      decreases |stream| - pos
    {
      var t, next := ReadTriplet(stream, pos);
      if t.TripletFault? {
        return [ParseErrorRecord];
      }
      if t.TripletEnd? {
        EndOfInput(lines, history, buffer.Some?);
        break;
      }
      if !StartsWith(t.line1, TimePrefix) || !StartsWith(t.line2, NamePrefix) ||
         !StartsWith(t.line3, MessagePrefix) {
        BadTripletFails(lines, |history|);
        return [ParseErrorRecord];
      }
      ghost var k := |history|;
      assert t.line1 == lines[4 * k] && t.line2 == lines[4 * k + 1] && t.line3 == lines[4 * k + 2];
      assert TripletOk(lines, k);
      var message := MakeMessage(t.line1, t.line2, t.line3);
      AppendParsed(lines, history, message);
      history := history + [message];
      pos := next;
      var r4 := ReadAt(stream, pos);
      if r4.Thrown? {
        return [ParseErrorRecord];
      }
      if r4.Got? {
        buffer := Some(r4.line);
        pos := pos + 1;
      } else {
        buffer := None;
      }
    }
    if buffer.Some? {
      history := [ParseErrorRecord];
    }
  }

  /** Adding the message of the next triplet keeps the parsed list equal to
      the messages of the triplets read so far. */
  lemma AppendParsed(lines: seq<string>, history: seq<ChatMessage>, message: ChatMessage)
    requires forall i :: 0 <= i < |history| ==> TripletOk(lines, i) && history[i] == MessageAt(lines, i)
    requires TripletOk(lines, |history|) && message == MessageAt(lines, |history|)
    ensures forall i :: 0 <= i < |history| + 1 ==>
      TripletOk(lines, i) && (history + [message])[i] == MessageAt(lines, i)
  {
  }

  /** The file ends before a triplet is complete: with a separator line
      pending the file is rejected, otherwise the messages so far are the
      result. */
  lemma EndOfInput(lines: seq<string>, history: seq<ChatMessage>, pending: bool)
    requires forall i :: 0 <= i < |history| ==> TripletOk(lines, i) && history[i] == MessageAt(lines, i)
    requires |history| == 0 ==> !pending && |lines| <= 2
    requires |history| > 0 && !pending ==> |lines| == 4 * |history| - 1
    requires pending ==> 4 * |history| <= |lines| < 4 * |history| + 3
    ensures ParseLog(lines) == if pending then [ParseErrorRecord] else history
  {
    if pending {
      WrongLengthFails(lines);
    } else if |history| > 0 {
      CompleteLogParses(lines, history);
    }
  }

  /** A file whose line count is neither below three nor 4k-1 is rejected. */
  lemma WrongLengthFails(lines: seq<string>)
    requires |lines| >= 3 && |lines| % 4 != 3
    ensures ParseLog(lines) == [ParseErrorRecord]
  {
  }

  /** A triplet inside the file with a wrong prefix makes the whole file fail. */
  lemma BadTripletFails(lines: seq<string>, k: nat)
    requires 4 * k + 2 < |lines| && !TripletOk(lines, k)
    ensures ParseLog(lines) == [ParseErrorRecord]
  {
    assert WellFormedLog(lines) ==> k < MessageCount(lines);
  }

  /** k good triplets in 4k-1 lines parse to their k messages. */
  lemma CompleteLogParses(lines: seq<string>, history: seq<ChatMessage>)
    requires |history| > 0 && |lines| == 4 * |history| - 1
    requires forall i :: 0 <= i < |history| ==> TripletOk(lines, i) && history[i] == MessageAt(lines, i)
    ensures ParseLog(lines) == history
  {
    assert MessageCount(lines) == |history|;
  }

  /** The nickname of every parsed message ends in ": ", which the error
      nickname does not. */
  lemma MessageNickname(lines: seq<string>, i: nat)
    requires TripletOk(lines, i)
    ensures EndsWith(MessageAt(lines, i).nickname, ": ")
    ensures MessageAt(lines, i).nickname != ParseErrorNickname
  {
    var n := MessageAt(lines, i).nickname;
    assert n[|n| - 2..] == ": ";
    assert n[|n| - 1] == ' ' != ParseErrorNickname[|ParseErrorNickname| - 1];
  }

  /** A successful parse holds only messages whose nickname ends in ": ", so
      none can be taken for the error record; and a result holding the error
      nickname anywhere is the error record alone: no partially parsed
      messages survive a failure. */
  lemma ParsedNicknames(lines: seq<string>)
    ensures var h := ParseLog(lines);
      !IsParseError(h) ==> forall i :: 0 <= i < |h| ==> EndsWith(h[i].nickname, ": ")
    ensures var h := ParseLog(lines);
      forall i :: 0 <= i < |h| && h[i].nickname == ParseErrorNickname ==> IsParseError(h)
  {
    var h := ParseLog(lines);
    if !IsParseError(h) {
      forall i | 0 <= i < |h|
        ensures EndsWith(h[i].nickname, ": ") && h[i].nickname != ParseErrorNickname
      {
        MessageNickname(lines, i);
      }
    }
  }

  /** The parser returns k >= 1 messages exactly when the file has 4k-1 lines
      and triplets 0 to k-1 carry the right prefixes. */
  lemma ParseSucceedsIff(lines: seq<string>, k: nat)
    requires k >= 1
    ensures (!IsParseError(ParseLog(lines)) && |ParseLog(lines)| == k) <==>
            (|lines| == 4 * k - 1 && forall i :: 0 <= i < k ==> TripletOk(lines, i))
  {
    var h := ParseLog(lines);
    if |lines| == 4 * k - 1 && forall i :: 0 <= i < k ==> TripletOk(lines, i) {
      assert MessageCount(lines) == k;
      assert WellFormedLog(lines);
      assert |h| == k;
      MessageNickname(lines, 0);
      assert h[0] != ParseErrorRecord;
    }
    if !IsParseError(h) && |h| == k {
      assert |lines| >= 3 && WellFormedLog(lines);
    }
  }

  /** Every message of a successful parse, at position i, is built from lines
      4i, 4i+1 and 4i+2: the time text in brackets, the name text followed by
      ": ", the message text as it is. */
  lemma ParsedFields(lines: seq<string>, i: nat)
    requires !IsParseError(ParseLog(lines)) && i < |ParseLog(lines)|
    ensures 4 * i + 2 < |lines|
    ensures StartsWith(lines[4 * i], TimePrefix) && StartsWith(lines[4 * i + 1], NamePrefix)
    ensures StartsWith(lines[4 * i + 2], MessagePrefix)
    ensures ParseLog(lines)[i] ==
      ChatMessage("[" + lines[4 * i][5..] + "]", lines[4 * i + 1][5..] + ": ", lines[4 * i + 2][8..])
  {
    assert |lines| >= 3 && WellFormedLog(lines);
    assert TripletOk(lines, i);
  }

  /** The line after each triplet is read and thrown away: two files that
      differ only on lines 4i+3 parse alike. */
  lemma SeparatorLinesIgnored(a: seq<string>, b: seq<string>)
    requires |a| == |b|
    requires forall j :: 0 <= j < |a| && j % 4 != 3 ==> a[j] == b[j]
    ensures ParseLog(a) == ParseLog(b)
  {
    forall i: nat | 4 * i + 2 < |a|
      ensures a[4 * i] == b[4 * i] && a[4 * i + 1] == b[4 * i + 1] && a[4 * i + 2] == b[4 * i + 2]
    {
      assert (4 * i) % 4 == 0 && (4 * i + 1) % 4 == 1 && (4 * i + 2) % 4 == 2;
    }
    assert forall i: nat :: TripletOk(a, i) <==> TripletOk(b, i);
    if |a| >= 3 && WellFormedLog(a) {
      assert WellFormedLog(b);
      forall i | 0 <= i < MessageCount(a) ensures MessageAt(a, i) == MessageAt(b, i) {
      }
    }
  }

  /** The text after each prefix of one message, as its author wrote it. */
  datatype Entry = Entry(time: string, name: string, message: string)

  /** The message the parser makes of an entry. */
  function Shown(e: Entry): ChatMessage
  {
    ChatMessage("[" + e.time + "]", e.name + ": ", e.message)
  }

  /** The lines of a log file holding `entries` in order, with
      `separators[i]` as the line between message i and message i+1. */
  function EncodeLog(entries: seq<Entry>, separators: seq<string>): seq<string>
    requires |entries| >= 1 && |separators| == |entries| - 1
    decreases |entries|
  {
    var e := entries[0];
    var triplet := [TimePrefix + e.time, NamePrefix + e.name, MessagePrefix + e.message];
    if |entries| == 1 then triplet
    else triplet + [separators[0]] + EncodeLog(entries[1..], separators[1..])
  }

  lemma {:induction false} EncodeLogLength(entries: seq<Entry>, separators: seq<string>)
    requires |entries| >= 1 && |separators| == |entries| - 1
    ensures |EncodeLog(entries, separators)| == 4 * |entries| - 1
    decreases |entries|
  {
    if |entries| > 1 {
      EncodeLogLength(entries[1..], separators[1..]);
    }
  }

  lemma {:induction false} EncodeLogAt(entries: seq<Entry>, separators: seq<string>, i: nat)
    requires |entries| >= 1 && |separators| == |entries| - 1 && i < |entries|
    ensures |EncodeLog(entries, separators)| == 4 * |entries| - 1
    ensures EncodeLog(entries, separators)[4 * i] == TimePrefix + entries[i].time
    ensures EncodeLog(entries, separators)[4 * i + 1] == NamePrefix + entries[i].name
    ensures EncodeLog(entries, separators)[4 * i + 2] == MessagePrefix + entries[i].message
    decreases i
  {
    EncodeLogLength(entries, separators);
    if i > 0 {
      EncodeLogAt(entries[1..], separators[1..], i - 1);
    }
  }

  /** A log written from entries, with any separator lines, parses back to
      the messages of those entries, in order. */
  lemma EncodeParseRoundTrip(entries: seq<Entry>, separators: seq<string>)
    requires |entries| >= 1 && |separators| == |entries| - 1
    ensures !IsParseError(ParseLog(EncodeLog(entries, separators)))
    ensures |ParseLog(EncodeLog(entries, separators))| == |entries|
    ensures forall i :: 0 <= i < |entries| ==> ParseLog(EncodeLog(entries, separators))[i] == Shown(entries[i])
  {
    var lines := EncodeLog(entries, separators);
    EncodeLogLength(entries, separators);
    forall i | 0 <= i < |entries| ensures TripletOk(lines, i) && MessageAt(lines, i) == Shown(entries[i]) {
      EncodeLogAt(entries, separators, i);
      var e := entries[i];
      assert (TimePrefix + e.time)[..5] == TimePrefix && (TimePrefix + e.time)[5..] == e.time;
      assert (NamePrefix + e.name)[..5] == NamePrefix && (NamePrefix + e.name)[5..] == e.name;
      assert (MessagePrefix + e.message)[..8] == MessagePrefix && (MessagePrefix + e.message)[8..] == e.message;
    }
    ParseSucceedsIff(lines, |entries|);
  }

  datatype Option<T> = None | Some(value: T)
}
