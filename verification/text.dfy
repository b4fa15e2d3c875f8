/**
 * Splitting a string on a separator character and joining fields back
 * together, as Rust's `str::split(char)` and `[String]::join` do them.
 * `get_user_name`/`get_group_name` split records on ':' and `echo` joins
 * its arguments with ' ', so both rest on the round trips proved here.
 */
module Text {

  /** The fields of `s` between occurrences of `sep`. Like Rust's `split`,
      this always yields at least one field (the empty string yields [""]). */
  function Split(s: string, sep: char): (fields: seq<string>)
    ensures |fields| >= 1
    ensures forall i :: 0 <= i < |fields| ==> sep !in fields[i]
    decreases |s|
  {
    if |s| == 0 then [""]
    else if s[0] == sep then [""] + Split(s[1..], sep)
    else
      var rest := Split(s[1..], sep);
      [[s[0]] + rest[0]] + rest[1..]
  }

  /** The fields of `parts` with exactly one `sep` between neighbours and none
      at either end. */
  function Join(parts: seq<string>, sep: char): string
    decreases |parts|
  {
    if |parts| == 0 then ""
    else if |parts| == 1 then parts[0]
    else parts[0] + [sep] + Join(parts[1..], sep)
  }

  /** Position of the first `c` in `s` (Rust's `str::find(char)`). */
  function FirstIndex(s: string, c: char): (i: nat)
    requires c in s
    ensures i < |s| && s[i] == c
    ensures c !in s[..i]
  {
    if s[0] == c then 0
    else
      assert s == [s[0]] + s[1..];
      var j := FirstIndex(s[1..], c);
      assert s[..j + 1] == [s[0]] + s[1..][..j];
      j + 1
  }

  /** Splitting and re-joining gives back the original string. */
  lemma {:induction false} JoinSplit(s: string, sep: char)
    ensures Join(Split(s, sep), sep) == s
    decreases |s|
  {
    if |s| == 0 {
    } else if s[0] == sep {
      JoinSplit(s[1..], sep);
      var rest := Split(s[1..], sep);
      assert Join([""] + rest, sep) == "" + [sep] + Join(rest, sep);
      assert s == [sep] + s[1..];
    } else {
      JoinSplit(s[1..], sep);
      var rest := Split(s[1..], sep);
      var fields := [[s[0]] + rest[0]] + rest[1..];
      assert fields[1..] == rest[1..];
      if |rest| == 1 {
        assert Join(rest, sep) == rest[0];
      } else {
        assert Join(rest, sep) == rest[0] + [sep] + Join(rest[1..], sep);
      }
      assert s == [s[0]] + s[1..];
    }
  }

  /** A string without `sep` is a single field. */
  lemma {:induction false} SplitNoSeparator(s: string, sep: char)
    requires sep !in s
    ensures Split(s, sep) == [s]
    decreases |s|
  {
    if |s| > 0 {
      assert sep !in s[1..];
      SplitNoSeparator(s[1..], sep);
      assert s == [s[0]] + s[1..];
    }
  }

  /** A separator-free prefix followed by `sep` becomes the first field. */
  lemma {:induction false} SplitAfterField(p: string, sep: char, r: string)
    requires sep !in p
    ensures Split(p + [sep] + r, sep) == [p] + Split(r, sep)
    decreases |p|
  {
    var s := p + [sep] + r;
    if |p| == 0 {
      assert s == [sep] + r;
      assert s[1..] == r;
    } else {
      assert s[1..] == p[1..] + [sep] + r;
      assert sep !in p[1..];
      SplitAfterField(p[1..], sep, r);
      assert p == [p[0]] + p[1..];
    }
  }

  /** Joining separator-free fields and splitting again gives back the fields. */
  lemma {:induction false} SplitJoin(parts: seq<string>, sep: char)
    requires |parts| >= 1
    requires forall i :: 0 <= i < |parts| ==> sep !in parts[i]
    ensures Split(Join(parts, sep), sep) == parts
    decreases |parts|
  {
    if |parts| == 1 {
      SplitNoSeparator(parts[0], sep);
    } else {
      SplitJoin(parts[1..], sep);
      SplitAfterField(parts[0], sep, Join(parts[1..], sep));
      assert parts == [parts[0]] + parts[1..];
    }
  }

  /** The first field is the text before the first `sep`, or all of `s`. */
  lemma FirstField(s: string, sep: char)
    ensures sep in s ==> Split(s, sep)[0] == s[..FirstIndex(s, sep)]
    ensures sep !in s ==> Split(s, sep)[0] == s
  {
    if sep in s {
      var i := FirstIndex(s, sep);
      assert s == s[..i] + [sep] + s[i + 1..];
      SplitAfterField(s[..i], sep, s[i + 1..]);
    } else {
      SplitNoSeparator(s, sep);
    }
  }
}
