/**
 * The two small helpers of the command line: `echo`, which writes its
 * arguments separated by single spaces, and the parameter check that the
 * commands use to accept an option.
 */
module Cli {
  import Text

  /** The line `echo` ends with, unless the option is 'n'. */
  function Newline(option: char): string {
    if option != 'n' then "\n" else ""
  }

  /** The text `echo` writes: every argument in order, a single space only
      between two arguments, then a newline unless the option is 'n'. The
      output is returned instead of printed. */
  method Echo(args: seq<string>, option: char) returns (out: string)
    ensures out == Text.Join(args, ' ') + Newline(option)
    ensures |args| == 0 ==> out == Newline(option)
  {
    var first := true;
    out := "";
    var k := 0;
    while k < |args|
      invariant 0 <= k <= |args|
      invariant first <==> k == 0
      invariant out == Text.Join(args[..k], ' ')
    {
      JoinSnoc(args[..k], args[k]);
      assert args[..k + 1] == args[..k] + [args[k]];
      if first {
        out := out + args[k];
        first := false;
      } else {
        out := out + " " + args[k];
      }
      k := k + 1;
    }
    assert args[..k] == args;
    out := out + Newline(option);
  }

  /** Joining one more part adds a separator only when something came before. */
  lemma {:induction false} JoinSnoc(parts: seq<string>, last: string)
    ensures Text.Join(parts + [last], ' ') ==
      (if |parts| == 0 then last else Text.Join(parts, ' ') + " " + last)
    decreases |parts|
  {
    var all := parts + [last];
    if |parts| == 0 {
      assert all == [last];
    } else if |parts| == 1 {
      assert all[1..] == [last];
      assert Text.Join(all, ' ') == parts[0] + " " + last;
    } else {
      assert all[1..] == parts[1..] + [last];
      JoinSnoc(parts[1..], last);
      calc {
        Text.Join(all, ' ');
        parts[0] + " " + Text.Join(parts[1..] + [last], ' ');
        parts[0] + " " + (Text.Join(parts[1..], ' ') + " " + last);
        { assert parts[0] + " " + (Text.Join(parts[1..], ' ') + " " + last)
            == (parts[0] + " " + Text.Join(parts[1..], ' ')) + " " + last; }
        Text.Join(parts, ' ') + " " + last;
      }
    }
  }

  /** When there is at least one argument and none holds a space, the
      arguments can be recovered from what `echo -n` writes by splitting it
      at the spaces. */
  lemma EchoWordsRecoverable(args: seq<string>)
    requires |args| >= 1
    requires forall i :: 0 <= i < |args| ==> ' ' !in args[i]
    ensures Text.Split(Text.Join(args, ' '), ' ') == args
  {
    Text.SplitJoin(args, ' ');
  }

  /** A parameter is accepted exactly when it is one of the valid ones; the
      scan stops at the first equal one. */
  method CheckValidParams(given: string, valid: seq<string>) returns (isValid: bool)
    ensures isValid <==> given in valid
  {
    isValid := false;
    var k := 0;
    while k < |valid|
      invariant 0 <= k <= |valid|
      invariant !isValid
      invariant given !in valid[..k]
    {
      if valid[k] == given {
        isValid := true;
        break;
      }
      assert valid[..k + 1] == valid[..k] + [valid[k]];
      k := k + 1;
    }
    assert isValid || valid[..k] == valid;
  }
}
