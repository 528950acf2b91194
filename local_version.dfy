/** `getLocalVersion`: the installed version, read from the output of
    `atom --version`. Running the command is not modelled: its output is
    the input, and None stands for a command that failed to run. */
module LocalVersion {
  import opened Errors
  import opened Strings

  /** The text after the first colon of the first line, trimmed. */
  function GetLocalVersion(output: Option<string>): (r: Result<string>)
    ensures output.None? ==> r == Err(NotInstalled)
    ensures output.Some? ==> (r == Err(UnexpectedFormat) <==> ':' !in FirstLine(output.value))
    ensures output.Some? ==> r.Ok? || r == Err(UnexpectedFormat)
    ensures r.Ok? ==> IsTrimmed(r.value) && '\n' !in r.value
  {
    match output
    case None => Err(NotInstalled)
    case Some(out) =>
      var line := FirstLine(out);
      match AfterFirstColon(line)
      case None => Err(UnexpectedFormat)
      case Some(rest) =>
        assert '\n' !in rest by {
          assert forall j :: 0 <= j < |rest| ==> rest[j] == line[|line| - |rest| + j];
        }
        TrimSpaceSubset(rest, '\n');
        Ok(TrimSpace(rest))
  }

  /** The version found is the trimmed text after the first colon of the
      first line of the output. */
  lemma VersionAfterFirstColon(out: string)
    requires GetLocalVersion(Some(out)).Ok?
    ensures var line := FirstLine(out);
      exists k :: 0 <= k < |line| && line[k] == ':' && ':' !in line[..k]
                  && GetLocalVersion(Some(out)).value == TrimSpace(line[k + 1..])
  {
    var line := FirstLine(out);
    var rest := AfterFirstColon(line).value;
    var k := |line| - |rest| - 1;
    assert line[k] == ':' && ':' !in line[..k] && rest == line[k + 1..];
  }

  /** Output of the documented shape `<prefix>: <version>` on the first line
      gives back exactly that version. */
  lemma VersionRoundTrip(prefix: string, left: string, version: string, right: string, rest: string)
    requires ':' !in prefix && '\n' !in prefix
    requires AllSpace(left) && AllSpace(right) && '\n' !in left && '\n' !in right
    requires IsTrimmed(version) && '\n' !in version
    ensures GetLocalVersion(Some(prefix + ":" + left + version + right + "\n" + rest)) == Ok(version)
  {
    var tail := left + version + right;
    var line := prefix + ":" + tail;
    assert '\n' !in line by {
      forall i | 0 <= i < |line| ensures line[i] != '\n' {
        if i < |prefix| { assert line[i] == prefix[i]; }
        else if i == |prefix| { assert line[i] == ':'; }
        else if i < |prefix| + 1 + |left| { assert line[i] == left[i - |prefix| - 1]; }
        else if i < |prefix| + 1 + |left| + |version| { assert line[i] == version[i - |prefix| - 1 - |left|]; }
        else { assert line[i] == right[i - |prefix| - 1 - |left| - |version|]; }
      }
    }
    assert prefix + ":" + left + version + right + "\n" + rest == line + ['\n'] + rest;
    IndexOfAfter(line, '\n', rest);
    assert (line + ['\n'] + rest)[..|line|] == line;
    IndexOfAfter(prefix, ':', tail);
    assert line == prefix + [':'] + tail;
    assert line[|prefix| + 1..] == tail;
    TrimSpacePadding(left, version, right);
  }
}
