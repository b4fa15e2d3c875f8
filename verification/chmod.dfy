/**
 * `chmod` as a pure transform from (expression, current mode) to the mode
 * handed to `set_permissions`. Reading the current mode and writing the new
 * one are the only file-system steps; both are abstracted away, so the
 * current mode is a parameter. A bit constant of the source is written as
 * the set of its bit positions: 0o400 is {8}, 0o444 is {8, 5, 2}.
 */
module Chmod {
  import opened Wrappers
  import opened Bits
  import Text
  import Numbers

  /** `+` sets bits, `-` clears them. */
  datatype Op = Add | Remove

  /** A symbolic expression cut at its operator. */
  datatype Symbolic = Symbolic(op: Op, identity: string, permission: string)

  /** Rust's `char::is_alphabetic`, restricted to ASCII letters. */
  predicate IsAlphabetic(c: char) {
    ('a' <= c <= 'z') || ('A' <= c <= 'Z')
  }

  /** The fixed bit constant for identity letter `who` and permission letter
      `what`: the named column crossed with the named row, so empty for a
      letter the table does not know. */
  function TableBits(who: char, what: char): (bits: set<nat>)
    ensures bits == Mask([who], [what])
  {
    match what
    case 'r' => (match who case 'u' => {8} case 'g' => {5} case 'o' => {2} case 'a' => {8, 5, 2} case _ => {})
    case 'w' => (match who case 'u' => {7} case 'g' => {4} case 'o' => {1} case 'a' => {7, 4, 1} case _ => {})
    case 'x' => (match who case 'u' => {6} case 'g' => {3} case 'o' => {0} case 'a' => {6, 3, 0} case _ => {})
    case _ => {}
  }

  /** One `curr_perm |= c` or `curr_perm &= !c` of the source. */
  function Step(op: Op, mode: Word, bits: set<nat>): Word {
    match op
    case Add => SetBits(mode, bits)
    case Remove => ClearBits(mode, bits)
  }

  /** The inner loop: one recognised permission letter against every identity
      letter, in order. */
  function ApplyIdentities(op: Op, mode: Word, identity: string, what: char): (r: Word)
    ensures forall i :: 0 <= i < WIDTH && i !in Mask(identity, [what]) ==> r[i] == mode[i]
    decreases |identity|
  {
    if |identity| == 0 then mode
    else
      WhoBitsCons(identity);
      ApplyIdentities(op, Step(op, mode, TableBits(identity[0], what)), identity[1..], what)
  }

  /** The outer loop: every permission letter in order; letters other than
      r, w, x are skipped. */
  function ApplyPermissions(op: Op, mode: Word, identity: string, permission: string): (r: Word)
    ensures forall i :: 0 <= i < WIDTH && i !in Mask(identity, permission) ==> r[i] == mode[i]
    decreases |permission|
  {
    if |permission| == 0 then mode
    else
      var next := if permission[0] in "rwx" then ApplyIdentities(op, mode, identity, permission[0]) else mode;
      WhatBitsCons(permission);
      ApplyPermissions(op, next, identity, permission[1..])
  }

  /** The owner, group and other columns an identity names ('a' names all three). */
  function WhoBits(identity: string): set<nat> {
    (if 'u' in identity || 'a' in identity then {8, 7, 6} else {})
    + (if 'g' in identity || 'a' in identity then {5, 4, 3} else {})
    + (if 'o' in identity || 'a' in identity then {2, 1, 0} else {})
  }

  /** The read, write and execute rows the permission letters name. */
  function WhatBits(permission: string): set<nat> {
    (if 'r' in permission then {8, 5, 2} else {})
    + (if 'w' in permission then {7, 4, 1} else {})
    + (if 'x' in permission then {6, 3, 0} else {})
  }

  /** The bits an expression touches: every named column crossed with every
      named row. All of them lie within 0o777. */
  function Mask(identity: string, permission: string): (mask: set<nat>)
    ensures forall i :: i in mask ==> i < 9
  {
    WhoBits(identity) * WhatBits(permission)
  }

  /** Cuts a symbolic expression: at the first '+' if there is one (identity
      before it, permission letters after it), otherwise at the first '-';
      with neither, the whole text is the identity and there are no
      permission letters. */
  function SplitSymbolic(expr: string): (s: Symbolic)
    ensures '+' in expr ==>
      s.op == Add && expr == s.identity + "+" + s.permission && '+' !in s.identity
    ensures '+' !in expr && '-' in expr ==>
      s.op == Remove && expr == s.identity + "-" + s.permission && '-' !in s.identity
    ensures '+' !in expr && '-' !in expr ==> s == Symbolic(Remove, expr, "")
  {
    if '+' in expr then
      var i := Text.FirstIndex(expr, '+');
      Text.FirstField(expr, '+');
      assert expr == expr[..i] + "+" + expr[i + 1..];
      Symbolic(Add, Text.Split(expr, '+')[0], expr[i + 1..])
    else if '-' in expr then
      var i := Text.FirstIndex(expr, '-');
      Text.FirstField(expr, '-');
      assert expr == expr[..i] + "-" + expr[i + 1..];
      Symbolic(Remove, Text.Split(expr, '-')[0], expr[i + 1..])
    else
      Text.FirstField(expr, '-');
      Symbolic(Remove, Text.Split(expr, '-')[0], "")
  }

  /** `chmod`: the mode passed to `set_permissions`, or `None` when nothing is
      written. An empty expression writes nothing; one starting with a letter
      is symbolic and always writes; any other is parsed as an octal u32 and
      written only if the parse succeeds. */
  function ChmodWrite(expr: string, current: Word): (written: Option<Word>)
    ensures |expr| == 0 ==> written == None
    ensures |expr| > 0 && IsAlphabetic(expr[0]) ==>
      var s := SplitSymbolic(expr);
      written == Some(Step(s.op, current, Mask(s.identity, s.permission)))
    ensures |expr| > 0 && !IsAlphabetic(expr[0]) ==>
      (written.Some? <==>
         Numbers.IsNumeral(expr, 8) && Numbers.Horner(0, Numbers.Digits(expr), 8) < Numbers.U32_LIMIT)
    ensures |expr| > 0 && !IsAlphabetic(expr[0]) && written.Some? ==>
      Value(written.value) == Numbers.Horner(0, Numbers.Digits(expr), 8)
  {
    if |expr| == 0 then None
    else if IsAlphabetic(expr[0]) then
      var s := SplitSymbolic(expr);
      ApplyPermissionsMask(s.op, current, s.identity, s.permission);
      Some(ApplyPermissions(s.op, current, s.identity, s.permission))
    else
      Numbers.ParseU32Spec(expr, 8);
      match Numbers.ParseU32(expr, 8)
      case Some(n) => U32Value(n); Some(FromU32(n))
      case None => None
  }

  /** The mode `chmod expr` hands to `set_permissions`, or the current mode
      when nothing is written. */
  function NewMode(expr: string, current: Word): Word {
    ChmodWrite(expr, current).GetOr(current)
  }

  /** Two steps of one operator combine into one step with both bit sets. */
  lemma StepStep(op: Op, mode: Word, a: set<nat>, b: set<nat>)
    ensures Step(op, Step(op, mode, a), b) == Step(op, mode, a + b)
  {
    var l, r := Step(op, Step(op, mode, a), b), Step(op, mode, a + b);
    assert forall i :: 0 <= i < WIDTH ==> l[i] == r[i];
  }

  /** A step with no bits changes nothing. */
  lemma StepNothing(op: Op, mode: Word)
    ensures Step(op, mode, {}) == mode
  {
    var r := Step(op, mode, {});
    assert forall i :: 0 <= i < WIDTH ==> r[i] == mode[i];
  }

  /** Identity letters combine by union of columns. */
  lemma WhoBitsCons(identity: string)
    requires |identity| > 0
    ensures WhoBits(identity) == WhoBits([identity[0]]) + WhoBits(identity[1..])
  {
    assert identity == [identity[0]] + identity[1..];
    assert forall c :: c in identity <==> c == identity[0] || c in identity[1..];
  }

  /** Permission letters combine by union of rows. */
  lemma WhatBitsCons(permission: string)
    requires |permission| > 0
    ensures WhatBits(permission) == WhatBits([permission[0]]) + WhatBits(permission[1..])
  {
    assert permission == [permission[0]] + permission[1..];
    assert forall c :: c in permission <==> c == permission[0] || c in permission[1..];
  }

  /** The inner loop applies the column mask of the identity for one letter. */
  lemma {:induction false} ApplyIdentitiesMask(op: Op, mode: Word, identity: string, what: char)
    ensures ApplyIdentities(op, mode, identity, what) == Step(op, mode, Mask(identity, [what]))
    decreases |identity|
  {
    if |identity| > 0 {
      var first := TableBits(identity[0], what);
      ApplyIdentitiesMask(op, Step(op, mode, first), identity[1..], what);
      StepStep(op, mode, first, Mask(identity[1..], [what]));
      WhoBitsCons(identity);
    }
  }

  /** A letter outside r, w, x names no row. */
  lemma WhatBitsUnknown(what: char)
    requires what !in "rwx"
    ensures WhatBits([what]) == {}
  {
    assert 'r' !in [what] && 'w' !in [what] && 'x' !in [what];
  }

  /** Both nested loops together amount to one step with the whole mask:
      `current | mask` for '+', `current & !mask` for '-'. */
  lemma {:induction false} ApplyPermissionsMask(op: Op, mode: Word, identity: string, permission: string)
    ensures ApplyPermissions(op, mode, identity, permission) == Step(op, mode, Mask(identity, permission))
    decreases |permission|
  {
    if |permission| > 0 {
      var what := permission[0];
      var head, tail := Mask(identity, [what]), Mask(identity, permission[1..]);
      if what in "rwx" {
        ApplyIdentitiesMask(op, mode, identity, what);
      } else {
        WhatBitsUnknown(what);
        StepNothing(op, mode);
      }
      var next := if what in "rwx" then ApplyIdentities(op, mode, identity, what) else mode;
      ApplyPermissionsMask(op, next, identity, permission[1..]);
      StepStep(op, mode, head, tail);
      WhatBitsCons(permission);
    }
  }
}
