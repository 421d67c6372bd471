/**
 * The env-file credential parser (GitManager.GetCredentials).
 *
 * The file is read as a whole into lines; a line starting `USERNAME=` sets the
 * username to the rest of the line, one starting `PASSWORD=` sets the
 * password, every other line is ignored, and the last occurrence of a key
 * wins.  A missing or unreadable file gives empty credentials.
 */
module Credentials {

  datatype Credentials = Credentials(username: string, password: string)

  /** What File.Exists / File.ReadAllLines see at the env-file path. */
  datatype EnvFile = Missing | Unreadable | Readable(lines: seq<string>)

  const UserPrefix: string := "USERNAME="
  const PassPrefix: string := "PASSWORD="
  const Empty: Credentials := Credentials("", "")

  /** Ordinal string.StartsWith. */
  predicate StartsWith(s: string, prefix: string) {
    |prefix| <= |s| && s[..|prefix|] == prefix
  }

  /** The value after `prefix` on the last line that starts with it, or "" when none does. */
  function LastValue(lines: seq<string>, prefix: string): string {
    if lines == [] then ""
    else if StartsWith(lines[|lines| - 1], prefix) then lines[|lines| - 1][|prefix|..]
    else LastValue(lines[..|lines| - 1], prefix)
  }

  /** The credentials a file yields: parsed when readable, empty otherwise. */
  function CredentialsFrom(env: EnvFile): Credentials {
    match env
    case Readable(lines) => Credentials(LastValue(lines, UserPrefix), LastValue(lines, PassPrefix))
    case _ => Empty
  }

  /** No line starts with both prefixes, so the `else if` never hides a password line. */
  lemma PrefixesExclusive(s: string)
    ensures StartsWith(s, UserPrefix) ==> !StartsWith(s, PassPrefix)
  {
    if StartsWith(s, UserPrefix) {
      assert s[0] == UserPrefix[0] == 'U' != PassPrefix[0];
    }
  }

  /** The `foreach` over the lines, overwriting `username` and `password`. */
  method ParseLines(lines: seq<string>) returns (c: Credentials)
    ensures c == Credentials(LastValue(lines, UserPrefix), LastValue(lines, PassPrefix))
  {
    var username := "";
    var password := "";
    for i := 0 to |lines|
      invariant username == LastValue(lines[..i], UserPrefix)
      invariant password == LastValue(lines[..i], PassPrefix)
    {
      var line := lines[i];
      assert lines[..i + 1][..i] == lines[..i];
      PrefixesExclusive(line);
      if StartsWith(line, UserPrefix) {
        username := line[|UserPrefix|..];
      } else if StartsWith(line, PassPrefix) {
        password := line[|PassPrefix|..];
      }
    }
    assert lines[..|lines|] == lines;
    c := Credentials(username, password);
  }

  /** The last line carrying the key decides its value. */
  lemma {:induction false} LastOccurrenceWins(lines: seq<string>, prefix: string, j: nat)
    requires j < |lines| && StartsWith(lines[j], prefix)
    requires forall k :: j < k < |lines| ==> !StartsWith(lines[k], prefix)
    ensures LastValue(lines, prefix) == lines[j][|prefix|..]
  {
    if j < |lines| - 1 {
      var init := lines[..|lines| - 1];
      assert forall k :: j < k < |init| ==> init[k] == lines[k];
      LastOccurrenceWins(init, prefix, j);
    }
  }

  /** A key that no line carries keeps its empty default. */
  lemma {:induction false} AbsentKeyIsEmpty(lines: seq<string>, prefix: string)
    requires forall k :: 0 <= k < |lines| ==> !StartsWith(lines[k], prefix)
    ensures LastValue(lines, prefix) == ""
  {
    if lines != [] {
      var init := lines[..|lines| - 1];
      assert forall k :: 0 <= k < |init| ==> init[k] == lines[k];
      AbsentKeyIsEmpty(init, prefix);
    }
  }

  /** Inserting a line that does not carry the key, anywhere, changes nothing. */
  lemma {:induction false} OtherLinesIgnored(before: seq<string>, line: string, after: seq<string>, prefix: string)
    requires !StartsWith(line, prefix)
    ensures LastValue(before + [line] + after, prefix) == LastValue(before + after, prefix)
  {
    if after == [] {
      assert (before + [line] + after)[..|before| + 1 - 1] == before;
      assert before + after == before;
    } else {
      var init := after[..|after| - 1];
      assert (before + [line] + after)[..|before + [line] + after| - 1] == before + [line] + init;
      assert (before + after)[..|before + after| - 1] == before + init;
      OtherLinesIgnored(before, line, init, prefix);
    }
  }
}
