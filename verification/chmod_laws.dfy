/**
 * Properties of the `chmod` model: what the symbolic and octal forms do to a
 * mode, which letters matter, idempotence, the add/remove round trip, and how
 * a change shows up in the `ls -l` permission string.
 */
module ChmodLaws {
  import opened Wrappers
  import opened Bits
  import Text
  import Numbers
  import Permissions
  import opened Chmod

  /** A symbolic expression: non-empty and starting with a letter. */
  predicate IsSymbolic(expr: string) {
    |expr| > 0 && IsAlphabetic(expr[0])
  }

  /** An identity and permission list that can be written around an operator
      and cut back apart unchanged. */
  predicate Cuttable(identity: string, permission: string) {
    |identity| > 0 && IsAlphabetic(identity[0])
    && '+' !in identity && '-' !in identity && '+' !in permission
  }

  // ---- cutting expressions ----

  /** In `a + [c] + b` with no `c` in `a`, the first `c` sits right after `a`. */
  lemma FirstIndexAfterPrefix(a: string, b: string, c: char)
    requires c !in a
    ensures c in a + [c] + b
    ensures Text.FirstIndex(a + [c] + b, c) == |a|
  {
    var s := a + [c] + b;
    assert s[|a|] == c;
    var i := Text.FirstIndex(s, c);
    assert forall j :: 0 <= j < i ==> s[..i][j] == s[j];
  }

  /** Text around a first separator is determined by the string. */
  lemma CutUnique(a: string, b: string, a': string, b': string, c: char)
    requires c !in a && c !in a'
    requires a + [c] + b == a' + [c] + b'
    ensures a == a' && b == b'
  {
    var s := a + [c] + b;
    FirstIndexAfterPrefix(a, b, c);
    FirstIndexAfterPrefix(a', b', c);
    assert a == s[..|a|] == a';
    assert b == s[|a| + 1..] == b';
  }

  /** `identity + "+" + permission` cuts back into the same parts. */
  lemma CutAdd(identity: string, permission: string)
    requires Cuttable(identity, permission)
    ensures IsSymbolic(identity + "+" + permission)
    ensures SplitSymbolic(identity + "+" + permission) == Symbolic(Add, identity, permission)
  {
    var e := identity + "+" + permission;
    assert e[0] == identity[0];
    assert e[|identity|] == '+';
    var s := SplitSymbolic(e);
    CutUnique(identity, permission, s.identity, s.permission, '+');
  }

  /** `identity + "-" + permission` cuts back into the same parts. */
  lemma CutRemove(identity: string, permission: string)
    requires Cuttable(identity, permission)
    ensures IsSymbolic(identity + "-" + permission)
    ensures SplitSymbolic(identity + "-" + permission) == Symbolic(Remove, identity, permission)
  {
    var e := identity + "-" + permission;
    assert e[0] == identity[0];
    assert e[|identity|] == '-';
    assert '+' !in e by {
      assert forall i :: 0 <= i < |e| ==> e[i] == (if i < |identity| then identity[i]
        else if i == |identity| then '-' else permission[i - |identity| - 1]);
    }
    var s := SplitSymbolic(e);
    CutUnique(identity, permission, s.identity, s.permission, '-');
  }

  // ---- what a symbolic expression does ----

  /** '+' sets every mask bit and keeps every other bit, so the result is a
      superset of the current mode; '-' clears every mask bit and keeps every
      other bit, so the result is a subset. Bits above 0o777 (file type,
      set-id, sticky) are never touched. */
  lemma SymbolicEffect(expr: string, current: Word)
    requires IsSymbolic(expr)
    ensures var s := SplitSymbolic(expr);
      var mask := Mask(s.identity, s.permission);
      var r := NewMode(expr, current);
      && (forall i :: 0 <= i < WIDTH && i !in mask ==> r[i] == current[i])
      && (s.op == Add ==> forall i :: 0 <= i < WIDTH ==> (i in mask ==> r[i]) && (current[i] ==> r[i]))
      && (s.op == Remove ==> forall i :: 0 <= i < WIDTH ==> (i in mask ==> !r[i]) && (r[i] ==> current[i]))
      && (forall i :: 9 <= i < WIDTH ==> r[i] == current[i])
  {
  }

  /** With neither '+' nor '-' there are no permission letters and the mode
      is written back unchanged. */
  lemma NoOperatorNoChange(expr: string, current: Word)
    requires IsSymbolic(expr) && '+' !in expr && '-' !in expr
    ensures ChmodWrite(expr, current) == Some(current)
  {
    assert Mask(expr, "") == {};
    StepNothing(Remove, current);
  }

  // ---- the mask ----

  /** A letter names a column only if some identity letter it is part of does. */
  lemma WhoBitsGrow(c: char, identity: string)
    requires c in identity
    ensures WhoBits([c]) <= WhoBits(identity)
  {
    assert forall d :: d in [c] ==> d in identity;
  }

  lemma WhatBitsGrow(c: char, permission: string)
    requires c in permission
    ensures WhatBits([c]) <= WhatBits(permission)
  {
    assert forall d :: d in [c] ==> d in permission;
  }

  /** The mask is the union of the table constants over every (identity
      letter, permission letter) pair: it holds each pair's bits, and the
      source's own loops, run from an all-clear mode, set exactly it. */
  lemma MaskIsUnionOfTable(identity: string, permission: string)
    ensures forall i, j :: 0 <= i < |identity| && 0 <= j < |permission| ==>
      TableBits(identity[i], permission[j]) <= Mask(identity, permission)
    ensures forall b :: 0 <= b < WIDTH ==>
      (ApplyPermissions(Add, FromU32(0), identity, permission)[b] <==> b in Mask(identity, permission))
  {
    forall i, j | 0 <= i < |identity| && 0 <= j < |permission|
      ensures TableBits(identity[i], permission[j]) <= Mask(identity, permission)
    {
      WhoBitsGrow(identity[i], identity);
      WhatBitsGrow(permission[j], permission);
    }
    ApplyPermissionsMask(Add, FromU32(0), identity, permission);
    ZeroWord();
  }

  lemma ZeroWord()
    ensures forall b :: 0 <= b < WIDTH ==> !FromU32(0)[b]
  {
    var z := FromU32(0);
    assert forall b :: 0 <= b < WIDTH ==> z[b] == FromValue(0, WIDTH - b)[0] by {
      ZeroBits(WIDTH);
    }
  }

  lemma {:induction false} ZeroBits(width: nat)
    ensures forall b :: 0 <= b < width ==> !FromValue(0, width)[b]
    decreases width
  {
    if width > 0 {
      ZeroBits(width - 1);
      assert FromValue(0, width) == [false] + FromValue(0, width - 1);
    }
  }

  /** Only which letters occur matters: not their order, not repetition. */
  lemma LetterOrderIrrelevant(op: Op, mode: Word, identity: string, identity': string, permission: string, permission': string)
    requires forall c :: c in identity <==> c in identity'
    requires forall c :: c in permission <==> c in permission'
    ensures ApplyPermissions(op, mode, identity, permission) == ApplyPermissions(op, mode, identity', permission')
  {
    ApplyPermissionsMask(op, mode, identity, permission);
    ApplyPermissionsMask(op, mode, identity', permission');
    assert WhoBits(identity) == WhoBits(identity');
    assert WhatBits(permission) == WhatBits(permission');
  }

  /** Only the identity letters u, g, o, a are read. */
  lemma OnlyKnownIdentitiesMatter(op: Op, mode: Word, identity: string, identity': string, permission: string)
    requires forall d :: d in "ugoa" ==> (d in identity <==> d in identity')
    ensures ApplyPermissions(op, mode, identity, permission) == ApplyPermissions(op, mode, identity', permission)
  {
    ApplyPermissionsMask(op, mode, identity, permission);
    ApplyPermissionsMask(op, mode, identity', permission);
    assert 'u' in "ugoa" && 'g' in "ugoa" && 'o' in "ugoa" && 'a' in "ugoa";
    assert WhoBits(identity) == WhoBits(identity');
  }

  /** A letter the table does not know contributes nothing, in either place. */
  lemma UnknownLettersIgnored(op: Op, mode: Word, identity: string, permission: string, c: char)
    ensures c !in "ugoa" ==>
      ApplyPermissions(op, mode, identity + [c], permission) == ApplyPermissions(op, mode, identity, permission)
    ensures c !in "rwx" ==>
      ApplyPermissions(op, mode, identity, permission + [c]) == ApplyPermissions(op, mode, identity, permission)
  {
    if c !in "ugoa" {
      assert forall d :: d in "ugoa" ==> (d in identity + [c] <==> d in identity);
      OnlyKnownIdentitiesMatter(op, mode, identity + [c], identity, permission);
    }
    if c !in "rwx" {
      ApplyPermissionsMask(op, mode, identity, permission + [c]);
      ApplyPermissionsMask(op, mode, identity, permission);
      assert forall d :: d in "rwx" ==> (d in permission + [c] <==> d in permission);
      assert 'r' in "rwx" && 'w' in "rwx" && 'x' in "rwx";
      assert WhatBits(permission + [c]) == WhatBits(permission);
    }
  }

  /** Identity 'a' acts exactly like 'ugo'. */
  lemma AllIsUserGroupOther(op: Op, mode: Word, permission: string)
    ensures ApplyPermissions(op, mode, "a", permission) == ApplyPermissions(op, mode, "ugo", permission)
  {
    ApplyPermissionsMask(op, mode, "a", permission);
    ApplyPermissionsMask(op, mode, "ugo", permission);
    assert 'u' in "ugo" && 'g' in "ugo" && 'o' in "ugo" && 'a' !in "ugo";
    assert 'a' in "a" && 'u' !in "a" && 'g' !in "a" && 'o' !in "a";
    assert WhoBits("a") == WhoBits("ugo");
  }

  // ---- applying twice, and undoing ----

  /** Running the same `chmod` twice is the same as running it once, for
      every expression: symbolic, octal, invalid or empty. */
  lemma Idempotent(expr: string, current: Word)
    ensures NewMode(expr, NewMode(expr, current)) == NewMode(expr, current)
  {
    if IsSymbolic(expr) {
      var s := SplitSymbolic(expr);
      var once := NewMode(expr, current);
      var twice := NewMode(expr, once);
      assert forall i :: 0 <= i < WIDTH ==> twice[i] == once[i];
    }
  }

  /** `X+P` then `X-P` leaves the current mode with exactly the mask cleared;
      it restores the mode exactly when none of the mask bits were set. */
  lemma AddThenRemove(identity: string, permission: string, current: Word)
    requires Cuttable(identity, permission)
    ensures NewMode(identity + "-" + permission, NewMode(identity + "+" + permission, current))
      == ClearBits(current, Mask(identity, permission))
    ensures NewMode(identity + "-" + permission, NewMode(identity + "+" + permission, current)) == current
      <==> forall i :: i in Mask(identity, permission) ==> !current[i]
  {
    var mask := Mask(identity, permission);
    CutAdd(identity, permission);
    CutRemove(identity, permission);
    var r := NewMode(identity + "-" + permission, NewMode(identity + "+" + permission, current));
    var cleared := ClearBits(current, mask);
    assert forall i :: 0 <= i < WIDTH ==> r[i] == cleared[i];
    if r == current {
      forall i | i in mask ensures !current[i] {
        assert r[i] == cleared[i];
      }
    }
    if forall i :: i in mask ==> !current[i] {
      assert forall i :: 0 <= i < WIDTH ==> r[i] == current[i];
    }
  }

  /** `X-P` then `X+P` leaves the current mode with exactly the mask set. */
  lemma RemoveThenAdd(identity: string, permission: string, current: Word)
    requires Cuttable(identity, permission)
    ensures NewMode(identity + "+" + permission, NewMode(identity + "-" + permission, current))
      == SetBits(current, Mask(identity, permission))
  {
    var mask := Mask(identity, permission);
    CutAdd(identity, permission);
    CutRemove(identity, permission);
    var r := NewMode(identity + "+" + permission, NewMode(identity + "-" + permission, current));
    var set' := SetBits(current, mask);
    assert forall i :: 0 <= i < WIDTH ==> r[i] == set'[i];
  }

  // ---- the octal form ----

  /** The octal rendering of any 32-bit value, given as the expression, is
      passed to `set_permissions` unchanged, whatever the current mode. */
  lemma OctalSetsMode(m: Word, current: Word)
    ensures NewMode(Numbers.Render(Value(m), 8), current) == m
  {
    WordValue(m);
    var e := Numbers.Render(Value(m), 8);
    assert Numbers.IsDigit(e[0], 8);
    assert Numbers.Digits(e) == e;
    Numbers.ParseRender(Value(m), 8);
    Numbers.RenderValue(Value(m), 8);
    OnlyWordOfValue(NewMode(e, current), m);
  }

  /** The same with Rust's optional leading '+'. */
  lemma OctalWithPlusSetsMode(m: Word, current: Word)
    ensures NewMode("+" + Numbers.Render(Value(m), 8), current) == m
  {
    WordValue(m);
    var d := Numbers.Render(Value(m), 8);
    var e := "+" + d;
    assert Numbers.Digits(e) == d;
    Numbers.ParseRender(Value(m), 8);
    Numbers.RenderValue(Value(m), 8);
    OnlyWordOfValue(NewMode(e, current), m);
  }

  /** Two words with the same value are the same word. */
  lemma OnlyWordOfValue(a: Word, b: Word)
    requires Value(a) == Value(b)
    ensures a == b
  {
    WordValue(a);
    WordValue(b);
  }

  /** An octal value of 2^32 or more does not fit a u32: nothing is written. */
  lemma OctalOverflowKeepsMode(n: nat, current: Word)
    requires n >= Numbers.U32_LIMIT
    ensures ChmodWrite(Numbers.Render(n, 8), current) == None
  {
    var e := Numbers.Render(n, 8);
    assert Numbers.IsDigit(e[0], 8);
    Numbers.ParseRejectsOverflow(n, 8);
  }

  // ---- the link to `ls -l` ----

  /** Where an identity letter's triple starts in the permission string. */
  function ColumnOf(c: char): (k: nat)
    requires c in "ugo"
    ensures k <= 6
  {
    if c == 'u' then 0 else if c == 'g' then 3 else 6
  }

  /** Row of a permission letter within a triple. */
  function RowOf(q: char): (k: nat)
    requires q in "rwx"
    ensures k <= 2
  {
    if q == 'r' then 0 else if q == 'w' then 1 else 2
  }

  /** The table constant for a single identity and permission letter is the
      bit `format_permissions` shows at that letter's position, under that letter. */
  lemma TableBitsIsPosition(c: char, q: char)
    requires c in "ugo" && q in "rwx"
    ensures ColumnOf(c) + RowOf(q) < 9
    ensures TableBits(c, q) == {Permissions.BitShownAt(ColumnOf(c) + RowOf(q))}
    ensures Permissions.LetterAt(ColumnOf(c) + RowOf(q)) == q
  {
    assert c == 'u' || c == 'g' || c == 'o';
    assert q == 'r' || q == 'w' || q == 'x';
  }

  /** After `X+P`, `ls -l` shows letter q in identity c's triple for every c
      in X and q in P; after `X-P` it shows '-' there. */
  lemma FormatShowsChange(identity: string, permission: string, current: Word, c: char, q: char)
    requires Cuttable(identity, permission)
    requires c in identity && c in "ugo" && q in permission && q in "rwx"
    ensures Permissions.FormatPermissions(NewMode(identity + "+" + permission, current))[ColumnOf(c) + RowOf(q)] == q
    ensures Permissions.FormatPermissions(NewMode(identity + "-" + permission, current))[ColumnOf(c) + RowOf(q)] == '-'
  {
    var k := ColumnOf(c) + RowOf(q);
    TableBitsIsPosition(c, q);
    var i, j :| 0 <= i < |identity| && identity[i] == c && 0 <= j < |permission| && permission[j] == q;
    MaskIsUnionOfTable(identity, permission);
    assert Permissions.BitShownAt(k) in Mask(identity, permission);
    CutAdd(identity, permission);
    CutRemove(identity, permission);
  }
}
