/** The upload button's handler: the file chosen in the dialog is checked,
    read and drawn, or refused. */
module Upload {
  import opened ChatLog
  import opened ChatWindow
  import opened FileSelection

  /** How a click on the upload button ends: the dialog was cancelled, the
      "invalid format" alert was shown, or the file reached the window with
      the given outcome. */
  datatype UploadOutcome = Cancelled | InvalidFormatAlert | Window(outcome: WindowOutcome)

  /** The upload handler. `chosen` is the name of the file the dialog
      returned, or None when it was cancelled; `stream` is what reading that
      file yields line by line. */
  method UploadChosenFile(flow: TextFlow, chosen: Option<string>, stream: seq<ReadResult>)
    returns (result: UploadOutcome)
    modifies flow
    ensures chosen.None? ==> result == Cancelled && flow.children == old(flow.children)
    ensures chosen.Some? && !IsFileValid(chosen.value) ==>
      result == InvalidFormatAlert && flow.children == old(flow.children)
    ensures chosen.Some? && IsFileValid(chosen.value) && HasIoFault(stream) ==>
      result == Window(CorruptFileAlert) && flow.children == []
    ensures chosen.Some? && IsFileValid(chosen.value) && !HasIoFault(stream) ==>
      result == Window(LinesOutcome(Texts(stream))) &&
      flow.children == (if LinesOutcome(Texts(stream)) == Filled then Rendering(ParseLog(Texts(stream))) else [])
  {
    if chosen.None? {
      return Cancelled;
    }
    if !IsFileValid(chosen.value) {
      return InvalidFormatAlert;
    }
    var history := ParseChatFile(stream);
    if HasIoFault(stream) {
      assert history[0].nickname == ParseErrorNickname;
    } else {
      ParsedOutcome(Texts(stream));
    }
    var outcome := FillChatWindow(flow, history);
    result := Window(outcome);
  }
}
