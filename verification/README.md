# Rustybox `chmod`, `ls -l` permissions, `echo` — a Dafny model

Rustybox is a small BusyBox-style toolbox written in Rust. This project models
its logic without the file system:

- `chmod` turns an expression and a file's current mode into the mode it
  writes. A symbolic expression such as `ug+rw` or `o-x` sets or clears fixed
  bit constants. An expression that does not start with a letter is read as an
  octal number.
- `format_permissions` renders the low nine mode bits as the `rwxr-x---`
  string that `ls -l` shows.
- `get_user_name` and `get_group_name` look an id up in the lines of
  `/etc/passwd` or `/etc/group`.
- `echo` joins its arguments with single spaces.
- `check_valid_params` accepts a command-line option when it is in a list.

The modules are:

- `Wrappers`: `Option`.
- `Text`: Rust's `str::split` on a character, joining, and `str::find`.
- `Numbers`: `u32::from_str_radix`, `str::parse::<u32>` and `u32::to_string`,
  as digit-string arithmetic.
- `Bits`: a 32-bit mode is a `Word`, a sequence of 32 booleans with bit `i`
  worth 2^i. `SetBits` is `|=` and `ClearBits` is `&= !`. `Value` and
  `FromU32` convert between a word and its u32 value, and are proved inverse.
- `Permissions`: `format_permissions` and its inverse on well-formed strings.
- `Chmod`: the `chmod` transform, with each source bit constant written as its
  set of bit positions (0o400 is {8}, 0o444 is {8, 5, 2}).
- `ChmodLaws`: the properties of `chmod`.
- `Accounts`: the user and group name lookup.
- `Cli`: `echo` and `check_valid_params`.

## Model

| member | source | states |
|---|---|---|
| Chmod.ChmodWrite | src/main.rs:444-550 | An empty expression writes nothing. An expression starting with a letter writes the current mode with the operator applied to exactly the mask of its identity and permission letters. Any other expression writes a value exactly when it is an octal u32 numeral, and the value written is that numeral's value. |
| Chmod.SplitSymbolic | src/main.rs:448-466 | With a '+', the operator is add and the expression is identity + '+' + permission with no '+' in the identity. Otherwise, with a '-', it is remove, cut at the first '-'. With neither, the whole expression is the identity and the permission letters are empty. |
| Chmod.ApplyPermissionsMask | src/main.rs:471-538 | The nested loops over permission letters and identity letters change the mode exactly as one set (or clear) of the mask: the owner/group/other columns the identity names crossed with the r/w/x rows the permission names. |
| Chmod.ApplyIdentitiesMask | src/main.rs:474-482 | The inner loop over identity letters for one permission letter sets (or clears) exactly that letter's row in every column the identity names. |
| Chmod.TableBits | src/main.rs:475-533 | The constant a match arm applies for one identity letter and one permission letter (0o400 … 0o111) is that letter's owner/group/other column crossed with its r/w/x row: 'a' names all three columns, and any other letter gives no bits. |
| Chmod.ApplyIdentities | src/main.rs:474-502 | The inner loop over the identity letters, for one permission letter, applies each letter's constant in turn. It changes no bit outside the mask of that identity and that one permission letter. |
| Chmod.ApplyPermissions | src/main.rs:471-538 | The outer loop over the permission letters runs the inner loop for each of r, w, x and skips any other letter. It changes no bit outside the expression's mask. |
| Chmod.StepStep | src/main.rs:476-479 | Two successive `|=` (or `&= !`) of bit sets equal one of their union. |
| ChmodLaws.CutAdd | src/main.rs:449-461 | `X+P`, for an X that starts with a letter and has no operator and a P without '+', is cut back into exactly X, add, P. |
| ChmodLaws.CutRemove | src/main.rs:452-465 | `X-P`, under the same conditions, is cut back into exactly X, remove, P. |
| ChmodLaws.SymbolicEffect | src/main.rs:471-538 | Bits outside the mask keep their value, including every bit above 0o777. Add sets every mask bit and gives a superset of the current mode. Remove clears every mask bit and gives a subset. |
| ChmodLaws.NoOperatorNoChange | src/main.rs:449-466 | A symbolic expression with neither operator writes the current mode back unchanged. |
| ChmodLaws.MaskIsUnionOfTable | src/main.rs:471-504 | Every (identity letter, permission letter) constant lies inside the mask. The loops, run from the all-clear mode, set exactly the mask's bits. |
| ChmodLaws.LetterOrderIrrelevant | src/main.rs:472-474 | Two expressions whose identity letters and permission letters are the same sets, in any order and with any repetition, have the same effect. |
| ChmodLaws.OnlyKnownIdentitiesMatter | src/main.rs:475-480 | Only which of u, g, o, a occur in the identity matters. |
| ChmodLaws.UnknownLettersIgnored | src/main.rs:472-503 | Appending an identity letter other than u/g/o/a, or a permission letter other than r/w/x, changes nothing. |
| ChmodLaws.AllIsUserGroupOther | src/main.rs:476-479 | Identity `a` has the same effect as `ugo` for any permission letters. |
| ChmodLaws.Idempotent | src/main.rs:444-550 | Applying the same expression twice gives the mode of applying it once. This holds for every expression: symbolic, octal, malformed or empty. |
| ChmodLaws.AddThenRemove | src/main.rs:471-538 | `X+P` then `X-P` gives the original mode with exactly the mask cleared. That equals the original mode if and only if no mask bit was set. |
| ChmodLaws.RemoveThenAdd | src/main.rs:471-538 | `X-P` then `X+P` gives the original mode with exactly the mask set. |
| ChmodLaws.OctalSetsMode | src/main.rs:545-548 | The octal digits of any 32-bit value, given as the expression, make exactly that value the mode passed to `set_permissions`, whatever the current mode. |
| ChmodLaws.OctalWithPlusSetsMode | src/main.rs:545-548 | With a leading '+', which `from_str_radix` accepts, that value is likewise the mode passed to `set_permissions`. |
| ChmodLaws.OctalOverflowKeepsMode | src/main.rs:545 | An octal numeral of 2^32 or more fails to parse, and nothing is written. |
| ChmodLaws.TableBitsIsPosition | src/main.rs:476-498 | The constant for a u/g/o letter and an r/w/x letter is the single bit that `ls -l` shows at that letter's column and row, under that letter. |
| ChmodLaws.FormatShowsChange | src/main.rs:321-342 | After `X+P`, the permission string shows letter q in column c for every c in X and q in P. After `X-P` it shows '-' there. |
| ChmodLaws.CutUnique | src/main.rs:459-464 | The text before and after the first occurrence of a separator is determined by the string. |
| Permissions.FormatPermissions | src/main.rs:321-342 | The result has exactly nine characters. Position k shows `rwx`[k mod 3] when bit 8-k (0o400 >> k) is set, and '-' otherwise. |
| Permissions.FormatIgnoresHighBits | src/main.rs:321-342 | Two modes that agree on bits 0..8 render the same string. Type, set-id and sticky bits never show. |
| Permissions.ParseFormat | src/main.rs:321-342 | Reading the rendered string back recovers exactly the mode's low nine bits. |
| Permissions.FormatParse | src/main.rs:321-342 | Every well-formed nine-character permission string is the rendering of the mode it describes. |
| Numbers.ParseU32 | src/main.rs:545 | `u32::from_str_radix`, and `str::parse::<u32>` for radix 10 (line 352). It succeeds only on an optional '+' followed by one or more digits of the radix, so any text starting with '-' fails. |
| Numbers.Render | src/main.rs:361 | `u32::to_string` (in any radix up to 10): a non-empty string of digits with no leading zero. Zero renders as "0". |
| Numbers.ParseU32Spec | src/main.rs:545 | `from_str_radix` succeeds if and only if the text is an optional '+' followed by one or more digits of the radix whose value is below 2^32. On success it yields that value. |
| Numbers.AccumulateIsHorner | src/main.rs:545 | The checked digit loop succeeds exactly when every character is a digit and the value never exceeds u32, and it yields the positional value. |
| Numbers.ParseRender | src/main.rs:361 | The decimal (or any radix) rendering of a u32 parses back to it. |
| Numbers.RenderValue | src/main.rs:361 | The rendering's digits have exactly the rendered number as their positional value. |
| Numbers.ParseRejectsOverflow | src/main.rs:545 | A numeral of 2^32 or more does not parse as a u32. |
| Bits.WordValue | src/main.rs:469 | Every 32-bit word is the bit pattern of a u32 value, which is below 2^32. |
| Bits.U32Value | src/main.rs:546 | The word built from a u32 has that u32 as its value. |
| Text.Split | src/main.rs:350 | `str::split` on one character (lines 350, 370, 450, 453): always at least one field, and no field holds the separator. |
| Text.FirstIndex | src/main.rs:459 | `str::find` on a character present in the text (lines 459, 463): the position of its first occurrence. |
| Text.SplitJoin | src/main.rs:350 | Splitting fields joined by a separator that none of them holds gives back exactly those fields. |
| Text.JoinSplit | src/main.rs:350 | Joining the fields of a split with the same separator gives back the string. |
| Text.FirstField | src/main.rs:450 | The first field of a split is the text before the first separator, or the whole text when there is none. |
| Accounts.LookupName | src/main.rs:344-382 | The user (or group) name is field 0 of the first line of the passwd (or group) file that has at least three fields and whose field 2 parses as the id. When no line matches, it is the id in decimal. |
| Accounts.FallbackReadsBack | src/main.rs:361 | When no line records the id, the name shown parses back as the id. |
| Accounts.RecordFound | src/main.rs:350-355 | A line written as `name:password:id[:…]`, after lines that do not record the id, is matched, and the lookup returns its name. |
| Accounts.SkipNonMatching | src/main.rs:348-359 | Lines that do not record the id do not affect the result. |
| Cli.Echo | src/main.rs:29-44 | The output is the arguments joined by exactly one space, then a newline unless the option is 'n'. With no arguments it is just the newline, or nothing. |
| Cli.JoinSnoc | src/main.rs:32-37 | Each further argument is written after a single space, and the first without one. |
| Cli.EchoWordsRecoverable | src/main.rs:29-44 | Given one or more arguments, none holding a space, splitting the `echo -n` output at spaces recovers them. |
| Cli.CheckValidParams | src/main.rs:431-442 | The parameter is accepted if and only if it equals one of the valid parameters. |

## Left out

- File-system calls are not modelled. `fs::metadata` reading the current mode
  becomes the `current` parameter. `fs::set_permissions` is the returned
  `Some(mode)`. Their I/O errors, which end `chmod` early, are not modelled.
- What the operating system does with the mode it is given is not modelled.
  The model's result is the value passed to `set_permissions`. chmod(2) applies
  only its low twelve bits (permissions, set-id, sticky) and keeps the file's
  type bits. So `chmod 755` on a regular file of mode 0o100644 leaves it at
  0o100755 even though 0o755 is passed, and an octal value with type bits
  cannot change a file's type.
- `chmod`'s result type is not modelled. `io::Result` carries only
  file-system errors, and an unparsable octal expression is silently ignored
  (the `None` case).
- `IsAlphabetic` accepts ASCII letters only. Rust's `char::is_alphabetic` also
  accepts non-ASCII letters, so the two differ on an expression that starts
  with one. The source takes the symbolic branch: `éu+x` sets 0o100, because
  `é` is simply ignored as an identity letter. The model takes the octal
  branch instead, where the parse fails and nothing is written. For
  expressions starting with an ASCII character the two agree.
- `Numbers.ParseU32Spec` collapses the error kinds of `ParseIntError` (empty,
  invalid digit, overflow) into `None`. The source only tests `Ok`.
- `Accounts.LookupName` takes the file's lines as a parameter. A file that
  cannot be opened is the empty sequence, and an unreadable line is left out of
  the sequence (the source skips it). How `BufRead::lines` strips line endings
  is not modelled.
- `Cli.Echo` returns its output instead of printing it.
- `Text.FirstIndex` is defined only when the character occurs. The `None`
  that `str::find` returns otherwise arises only in the '-' branch with no '-'
  at all (line 463). `Chmod.SplitSymbolic` models that case directly: no
  permission letters.
- `main`'s argument dispatch and exit codes are not modelled. This includes
  the argument-count guard before `chmod` and the choice of the `-n` option
  for `echo`.
- `ls` and `ls -R`, `cp -r`, `mkdir`, `rmdir`, `rm`, `touch`, `mv`, `ln`,
  `cat`, `grep` (the regex crate) and the modification-time formatting (the
  chrono crate) are not modelled. They are file-system or library wrappers
  outside the permission logic.
- The mode is a `Word` of 32 bits rather than a machine u32. The source's
  `|=` and `&= !` touch only the bit positions they name, and that is what
  `SetBits` and `ClearBits` state.
