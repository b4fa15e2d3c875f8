/**
 * The nine permission bits of a Unix mode and their `ls -l` rendering
 * (`format_permissions`). In a `Bits.Word`, 0o400 (owner read) is bit 8,
 * 0o200 bit 7, ... and 0o1 (other execute) bit 0.
 */
module Permissions {
  import opened Bits

  /** The bits 0o777 covers: owner, group and other read/write/execute. */
  const PERMISSION_POSITIONS: set<nat> := {0, 1, 2, 3, 4, 5, 6, 7, 8}

  /** The mode bit shown at position `k` of the 9-character string: 0o400 >> k. */
  function BitShownAt(k: nat): (i: nat)
    requires k < 9
    ensures i in PERMISSION_POSITIONS
  {
    8 - k
  }

  /** The letter shown at position `k` when its bit is set: r, w, x in turn. */
  function LetterAt(k: nat): char
    requires k < 9
  {
    if k % 3 == 0 then 'r' else if k % 3 == 1 then 'w' else 'x'
  }

  function Flag(isSet: bool, letter: char): char {
    if isSet then letter else '-'
  }

  /** `format_permissions`: owner, group and other triples, each `rwx` with
      '-' in place of a clear bit. */
  function FormatPermissions(mode: Word): (s: string)
    ensures |s| == 9
    ensures forall k :: 0 <= k < 9 ==> s[k] == Flag(mode[BitShownAt(k)], LetterAt(k))
  {
    var user := [Flag(mode[8], 'r'), Flag(mode[7], 'w'), Flag(mode[6], 'x')];
    var group := [Flag(mode[5], 'r'), Flag(mode[4], 'w'), Flag(mode[3], 'x')];
    var others := [Flag(mode[2], 'r'), Flag(mode[1], 'w'), Flag(mode[0], 'x')];
    TriplesByPosition(mode, user + group + others);
    user + group + others
  }

  /** The three hand-written triples follow the positional rule. */
  lemma TriplesByPosition(mode: Word, s: string)
    requires s == [Flag(mode[8], 'r'), Flag(mode[7], 'w'), Flag(mode[6], 'x')]
      + [Flag(mode[5], 'r'), Flag(mode[4], 'w'), Flag(mode[3], 'x')]
      + [Flag(mode[2], 'r'), Flag(mode[1], 'w'), Flag(mode[0], 'x')]
    ensures |s| == 9
    ensures forall k :: 0 <= k < 9 ==> s[k] == Flag(mode[BitShownAt(k)], LetterAt(k))
  {
    forall k | 0 <= k < 9 ensures s[k] == Flag(mode[BitShownAt(k)], LetterAt(k)) {
      if k == 0 {} else if k == 1 {} else if k == 2 {}
      else if k == 3 {} else if k == 4 {} else if k == 5 {}
      else if k == 6 {} else if k == 7 {} else {}
    }
  }

  /** A string `format_permissions` can produce: each position holds its own
      letter or '-'. */
  predicate WellFormed(s: string) {
    |s| == 9 && forall k :: 0 <= k < 9 ==> s[k] == LetterAt(k) || s[k] == '-'
  }

  /** Reads a permission string back into a mode with only those bits set:
      the inverse view of `format_permissions`. */
  function ParsePermissions(s: string): (mode: Word)
    requires |s| == 9
  {
    seq(WIDTH, i requires 0 <= i < WIDTH => i < 9 && s[8 - i] != '-')
  }

  /** The permission bits of a mode, everything else cleared (`mode & 0o777`). */
  function PermissionPart(mode: Word): (r: Word) {
    seq(WIDTH, i requires 0 <= i < WIDTH => i < 9 && mode[i])
  }

  /** The rendering depends only on the low nine bits: file-type, set-id and
      sticky bits never show. */
  lemma FormatIgnoresHighBits(mode: Word, mode': Word)
    requires forall i :: 0 <= i < 9 ==> mode[i] == mode'[i]
    ensures FormatPermissions(mode) == FormatPermissions(mode')
  {
  }

  /** Reading the rendering back recovers exactly the permission bits. */
  lemma ParseFormat(mode: Word)
    ensures ParsePermissions(FormatPermissions(mode)) == PermissionPart(mode)
  {
    var s := FormatPermissions(mode);
    var a, b := ParsePermissions(s), PermissionPart(mode);
    forall i | 0 <= i < WIDTH ensures a[i] == b[i] {
      if i < 9 {
        assert BitShownAt(8 - i) == i;
      }
    }
  }

  /** Every well-formed permission string is the rendering of its own bits. */
  lemma FormatParse(s: string)
    requires WellFormed(s)
    ensures FormatPermissions(ParsePermissions(s)) == s
  {
    var t := FormatPermissions(ParsePermissions(s));
    forall k | 0 <= k < 9 ensures t[k] == s[k] {
      assert s[k] == LetterAt(k) || s[k] == '-';
    }
  }
}
