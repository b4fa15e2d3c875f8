/**
 * How `ls -l` turns a numeric owner or group id into a name: the first line
 * of the account file (`/etc/passwd` for users, `/etc/group` for groups)
 * whose third ':'-separated field is that id in decimal gives its first
 * field as the name; with no such line the id itself is shown in decimal.
 * The file's lines are a parameter; a file that cannot be opened has none.
 */
module Accounts {
  import opened Wrappers
  import Text
  import Numbers

  /** A line that records the given id: it has at least three fields and the
      third reads as that u32 in decimal. */
  predicate Matches(line: string, id: Numbers.U32) {
    var fields := Text.Split(line, ':');
    |fields| >= 3 && Numbers.ParseU32(fields[2], 10) == Some(id)
  }

  /** The name recorded for `id`: the first field of the first matching
      line, or the decimal rendering of `id` when no line matches. */
  function LookupName(lines: seq<string>, id: Numbers.U32): (name: string)
    ensures forall i :: (0 <= i < |lines| && Matches(lines[i], id)
                         && forall j :: 0 <= j < i ==> !Matches(lines[j], id)) ==>
      name == Text.Split(lines[i], ':')[0]
    ensures (forall i :: 0 <= i < |lines| ==> !Matches(lines[i], id)) ==>
      name == Numbers.Render(id, 10)
    decreases |lines|
  {
    if |lines| == 0 then Numbers.Render(id, 10)
    else if Matches(lines[0], id) then Text.Split(lines[0], ':')[0]
    else LookupName(lines[1..], id)
  }

  /** The fallback name reads back as the id it stands for. */
  lemma FallbackReadsBack(lines: seq<string>, id: Numbers.U32)
    requires forall i :: 0 <= i < |lines| ==> !Matches(lines[i], id)
    ensures Numbers.ParseU32(LookupName(lines, id), 10) == Some(id)
  {
    Numbers.ParseRender(id, 10);
  }

  /** A record line written as `name:password:id[:more…]` is one the lookup
      matches, and its name is what the lookup returns for that id when no
      earlier line records the id. */
  lemma RecordFound(before: seq<string>, name: string, password: string, id: Numbers.U32,
                    rest: seq<string>, after: seq<string>)
    requires ':' !in name && ':' !in password
    requires forall i :: 0 <= i < |rest| ==> ':' !in rest[i]
    requires forall i :: 0 <= i < |before| ==> !Matches(before[i], id)
    ensures Matches(Text.Join([name, password, Numbers.Render(id, 10)] + rest, ':'), id)
    ensures LookupName(before + [Text.Join([name, password, Numbers.Render(id, 10)] + rest, ':')] + after, id) == name
  {
    var fields := [name, password, Numbers.Render(id, 10)] + rest;
    var line := Text.Join(fields, ':');
    NoColonInDigits(Numbers.Render(id, 10));
    assert forall i :: 0 <= i < |fields| ==> ':' !in fields[i];
    Text.SplitJoin(fields, ':');
    Numbers.ParseRender(id, 10);
    var lines := before + [line] + after;
    assert lines[|before|] == line;
    assert forall j :: 0 <= j < |before| ==> lines[j] == before[j];
  }

  /** Decimal digits hold no ':'. */
  lemma NoColonInDigits(s: string)
    requires Numbers.AllDigits(s, 10)
    ensures ':' !in s
  {
    assert forall i :: 0 <= i < |s| ==> Numbers.IsDigit(s[i], 10);
  }

  /** Lines that do not record the id are skipped: only the first matching
      line decides. */
  lemma {:induction false} SkipNonMatching(before: seq<string>, lines: seq<string>, id: Numbers.U32)
    requires forall i :: 0 <= i < |before| ==> !Matches(before[i], id)
    ensures LookupName(before + lines, id) == LookupName(lines, id)
    decreases |before|
  {
    if |before| > 0 {
      assert (before + lines)[0] == before[0];
      assert (before + lines)[1..] == before[1..] + lines;
      SkipNonMatching(before[1..], lines, id);
    } else {
      assert before + lines == lines;
    }
  }
}
