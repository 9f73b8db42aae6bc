/** The file-type test ChatApplication applies to the file chosen in the
    upload dialog, before anything is read from it. */
module FileSelection {
  import opened JavaText

  /** IsFileValid: the extension (the text after the last '.', counted only
      when that '.' is neither the first nor the last character of the name)
      is exactly "msg". So a name is accepted exactly when it ends in ".msg"
      with at least one character before the dot: case matters, and a bare
      ".msg" is refused. */
  predicate IsFileValid(name: string): (valid: bool)
    ensures valid <==> |name| >= 5 && EndsWith(name, ".msg")
  {
    ExtensionIsMsg(name);
    Extension(name) == "msg"
  }

  /** The text after the last '.', or "" when that dot is missing, first or
      last. */
  function Extension(name: string): string
  {
    var index := LastIndexOf(name, '.');
    if 0 < index < |name| - 1 then name[index + 1..] else ""
  }

  lemma ExtensionIsMsg(name: string)
    ensures Extension(name) == "msg" <==> |name| >= 5 && EndsWith(name, ".msg")
  {
    var index := LastIndexOf(name, '.');
    if Extension(name) == "msg" {
      assert |name[index + 1..]| == 3;
      assert index == |name| - 4;
      assert name[|name| - 4..] == [name[index]] + name[index + 1..];
    }
    if |name| >= 5 && EndsWith(name, ".msg") {
      DotBeforeExtension(name);
    }
  }

  /** In a name ending in ".msg" the last dot is the one before "msg". */
  lemma DotBeforeExtension(name: string)
    requires |name| >= 5 && EndsWith(name, ".msg")
    ensures LastIndexOf(name, '.') == |name| - 4
    ensures name[|name| - 3..] == "msg"
  {
    var tail := name[|name| - 4..];
    assert tail == ".msg";
    assert name[|name| - 4] == tail[0] == '.';
    assert name[|name| - 3..] == tail[1..];
    forall j | |name| - 4 < j < |name|
      ensures name[j] != '.'
    {
      assert name[j] == tail[j - (|name| - 4)];
    }
  }

  /** Names the dialog's check accepts. */
  lemma AcceptedNames()
    ensures IsFileValid("chat.msg") && IsFileValid("log.tar.msg")
  {
  }

  /** A name that is only the extension, or has no dot, is refused. */
  lemma RefusedBareNames()
    ensures !IsFileValid(".msg") && !IsFileValid("msg")
  {
  }

  /** The comparison is case-sensitive. */
  lemma RefusedUpperCase()
    ensures !IsFileValid("chat.MSG")
  {
    assert "chat.MSG"[4..][1] == 'M';
  }

  /** Only the text after the last dot counts, and all of it. */
  lemma RefusedOtherEndings()
    ensures !IsFileValid("chat.msg.") && !IsFileValid("chat.msgs")
  {
    assert "chat.msg."[5..][0] == 'm';
    assert "chat.msgs"[5..][0] == 'm';
  }
}
