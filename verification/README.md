# Suzerain save editor: the `variables` codec and the table edits

The Suzerain save editor is a Tk program that opens a savegame (a JSON
document) and works on its `variables` field. That field is a string such as
`Variable={["met_alice"]=true, ["gold"]=120, ["name"]="Rumburg"};`. The
editor decodes it into an ordered list of `(key, value)` pairs and shows them
in a tree view. The user edits values in place, and on saving the editor
writes the list back as a new `variables` string.

This project models that core in Dafny and proves its properties:

- `PyStr`: the Python string built-ins the code relies on: `strip`, `lower`,
  `find` and `in`, `isdigit`, `lstrip('-')`, `int()` and `str(int)`.
- `Values`: the decoded values (`bool`, `int` or `str`), the entries, the text
  the tree shows for a value, and the first-match replace that every save
  handler performs.
- `Scanner`: the character scan of `parse_variables`, which splits the body
  at commas found at bracket depth zero outside quotes.
- `ItemPattern`: the item regular expression `\["(.*?)"\]\s*=\s*(".*?"|\w+)`,
  written out as a matcher. It is anchored at the start, the key is lazy,
  and neither group crosses a newline.
- `Codec`: the wrapper search, the classification of a literal, decoding
  (`parse_variables`, as a function and as the imperative method), and the
  encoding that `save_savegame` performs.
- `RoundTrip`: decoding what the encoder writes gives back the list, for the
  entries the format can carry. Negative integers cannot be carried.
- `Divergence`: a savegame that decoding, encoding and decoding again does
  not reproduce.
- `Editor`: the editor's `original_vars` list as a class. Its methods load
  it, run the three save handlers, filter it and rebuild the string. The
  module also holds the rows `populate_tree` shows.

Some consequences of the code that the model keeps and states:

- The body ends at the first `};` after `Variable={`, so a `};` inside a
  quoted value cuts the body short.
- A negative integer such as `["b"]=-42` is dropped when read, because `-` is
  not a `\w` character. The encoder writes negative integers with their `-`,
  so such an entry is lost on the next read (`RoundTrip.NegativeIntDropped`).
- A key may be empty (`[""]=1` decodes), and the text around a key is not
  trimmed.
- `decode(encode(decode(s))) == decode(s)` does not hold in general. The
  round trip is proved only for entries with no `"`, `[`, `]`, newline or
  `};` in their keys and texts, and with no negative integers
  (`RoundTrip.DecodeEncode`). `Divergence.ReencodeLosesEntry` proves a
  counterexample. Decoding `Variable={["k"]="a["], ["j"]=1};` gives two
  entries, because the stray `]` after the value brings the bracket depth
  back to zero before the comma. Their encoding,
  `Variable={["k"]="a[", ["j"]=1};`, decodes to the first entry alone,
  because the scan never returns to depth zero.

The integer edit accepts `--5`, since `lstrip('-')` removes every leading
`-`. When the key is found, `int('--5')` then raises inside the update loop.
The model gives this its own outcome, `IntRaised`, and leaves the list
unchanged.

## Model

| member | source | states |
|---|---|---|
| `PyStr.Find` | suzerain-save-editor.py:130 | the index found is an occurrence at or after the start, and no earlier one exists; `None` only when there is no occurrence at all |
| `PyStr.Strip` | suzerain-save-editor.py:134 | `strip` never lengthens its input; `StripIsTrimmed`, `StripSlice` and `StripEmpty` pin down what it returns |
| `PyStr.Lower` | suzerain-save-editor.py:175-177 | `lower()` keeps the length, leaves no upper-case letter, and changes no character that is not one; each upper-case letter becomes its lower-case letter (code point plus 32) |
| `PyStr.Contains` | suzerain-save-editor.py:217 | `needle in hay` holds exactly when `find` finds the needle, and always for an empty needle |
| `PyStr.PyInt` | suzerain-save-editor.py:182 | `int()` rejects blank text, and text it accepts starts (after `strip`) with a digit or with a sign followed by a digit |
| `PyStr.IntToString` | suzerain-save-editor.py:358 | `str` of an integer is plain decimal: digits with no leading zero, after a `-` exactly when the integer is negative |
| `PyStr.StripIsTrimmed` | suzerain-save-editor.py:134 | what `strip` returns neither starts nor ends with whitespace |
| `PyStr.StripSlice` | suzerain-save-editor.py:134 | what `strip` returns is a slice of its input with only whitespace on either side |
| `PyStr.StripEmpty` | suzerain-save-editor.py:156 | `strip` gives the empty string exactly when the input is all whitespace |
| `PyStr.IsSpace` | suzerain-save-editor.py:151-156 | `str.isspace`, also the `\s` class of the item pattern: the space, the ASCII controls tab to carriage return and 0x1C to 0x1F, and the Unicode spaces and separators |
| `PyStr.IsWordChar` | suzerain-save-editor.py:166 | the `\w` class of the item pattern, on ASCII: letters, digits and `_` |
| `PyStr.IsDigits` | suzerain-save-editor.py:300 | `str.isdigit()` on ASCII: true exactly for a non-empty run of `0`-`9` |
| `PyStr.StripLeadingDashes` | suzerain-save-editor.py:300 | `lstrip('-')` gives a suffix of its input; everything dropped is `-`, and what is left does not start with `-` |
| `PyStr.NatToString` | suzerain-save-editor.py:358 | `str` of a natural number is a non-empty run of digits, and starts with `0` only for zero, which is written `0` alone |
| `PyStr.PyIntOfIntToString` | suzerain-save-editor.py:182 | `int(str(i)) == i` for every integer, negative ones included |
| `Values.Display` | suzerain-save-editor.py:195-200 | a boolean is shown as `true`/`false` according to its value; an integer is shown in plain decimal (no leading zero, `-` exactly when negative), which `int()` reads back as that integer; a text is shown as it is |
| `Values.FirstIndex` | suzerain-save-editor.py:287-290 | the position where the update loop stops: its entry has the key and no earlier entry does; `None` when no entry has it |
| `Values.Replace` | suzerain-save-editor.py:287-290 | replace-by-key keeps the list's length, and an absent key leaves the list as it was; `ReplaceSpec` states the rest |
| `Values.ReplaceSpec` | suzerain-save-editor.py:287-290 | replace-by-key keeps the length, every key and every other entry. Only the first entry with the key changes, and it gets the new value. An absent key leaves the list as it was, and every key's first position stays the same |
| `Scanner.NextCut` | suzerain-save-editor.py:150 | the next cut is a comma at depth zero with an even count of quotes before it, and no such comma comes earlier |
| `Scanner.TopLevelItemsShape` | suzerain-save-editor.py:141-157 | one item per piece, in order, each the stripped piece and trimmed; only the last piece can be missing, exactly when it is blank |
| `Scanner.TopLevelItems` | suzerain-save-editor.py:141-157 | there is one item per top-level piece, or one fewer; `TopLevelItemsShape` says which and what each holds |
| `Scanner.SplitTopLevel` | suzerain-save-editor.py:135-157 | the scan with its quote flag and bracket depth gives the stripped text between top-level cuts, the last piece kept only when it is not blank |
| `Scanner.PiecesJoin` | suzerain-save-editor.py:141-154 | rejoining the pieces with commas gives the input back: only the separator commas are removed, and every other character is kept in order |
| `Scanner.PiecesHaveNoCut` | suzerain-save-editor.py:141-154 | no piece holds a comma that a scan of the piece would cut at, so commas inside quotes or brackets stay in their item |
| `Scanner.PiecesOfJoin` | suzerain-save-editor.py:141-154 | pieces with balanced brackets, paired quotes and no cut of their own, joined with commas, are cut back into exactly those pieces |
| `ItemPattern.MatchValue` | suzerain-save-editor.py:166 | the value group ends after where it starts; it fails at the end of the item or at a character that is neither a quote nor `\w`; a value that starts with a word character always matches and takes the whole run of word characters; a quoted value fails exactly when a newline or the end comes before the closing quote |
| `ItemPattern.MatchValueToken` | suzerain-save-editor.py:166 | what the value group captures is a quoted run with no quote or newline inside, or a `\w` run; it is quoted exactly when it opens with a quote |
| `ItemPattern.SpaceEnd` | suzerain-save-editor.py:166 | a `\s*` run: everything passed over is whitespace, and it stops at the end or at a character that is not |
| `ItemPattern.MatchValueAfterSpace` | suzerain-save-editor.py:166 | `\s*` and the value: the span returned starts at or after the position tried, and the value group matches there |
| `ItemPattern.ValueAfterSpaceShape` | suzerain-save-editor.py:166 | `\s*` and the value match exactly when the value group matches where the whitespace ends, and the value starts there |
| `ItemPattern.MatchAssign` | suzerain-save-editor.py:166 | `\s*=\s*` and the value: the span returned lies past the position tried, and the value group matches there |
| `ItemPattern.AssignShape` | suzerain-save-editor.py:166 | `\s*=\s*` and the value match exactly when the whitespace ends at an `=` and a value starts where the whitespace after it ends; the value's span starts there |
| `ItemPattern.MatchAfterKey` | suzerain-save-editor.py:166 | after a key, a match needs `"]`; the value span lies past it, and the value group matches there |
| `ItemPattern.MatchAfterKeyShape` | suzerain-save-editor.py:166 | after a key, the pattern matches exactly when `"]`, whitespace, `=` and whitespace come before a value, each whitespace run taken whole |
| `ItemPattern.MatchKeyFrom` | suzerain-save-editor.py:166 | the lazy key: the shortest length after which the rest of the pattern matches; no newline inside it, and every shorter length fails; when it finds none, no newline-free length from the start on lets the rest match |
| `ItemPattern.MatchItem` | suzerain-save-editor.py:166 | a match needs the item to start with `["`; without it there is none (`ItemPattern.MatchItemFound` states when one is found) |
| `ItemPattern.MatchItemSpec` | suzerain-save-editor.py:166-169 | the key is the text right after `["`, has no newline and is the shortest that works; `"]`, whitespace, `=` and whitespace follow it; the literal is a value token right after them, and a word literal runs to the end of its word |
| `ItemPattern.MatchItemFound` | suzerain-save-editor.py:166 | the search for an item after `["` succeeds whenever some newline-free key length lets the rest of the pattern match, with a key no longer than that length |
| `ItemPattern.ItemText` | suzerain-save-editor.py:364 | the f-string `["{key}"]={val_str}`: `["`, the key, `"]=`, then the literal; `RoundTrip.ItemTextChars` states each character's place |
| `RoundTrip.ItemTextChars` | suzerain-save-editor.py:364 | the item text has length 5 plus the key and the literal; `["` opens it, the key sits at 2, `"]=` follows it and the literal fills the rest |
| `ItemPattern.MatchItemText` | suzerain-save-editor.py:166-169 | the text `["key"]=literal` matches with that key and that literal, when the key has no quote or newline and the literal is a value token |
| `ItemPattern.BadValueDropped` | suzerain-save-editor.py:166-167 | when the key holds no quote or newline, an item whose value holds no quote and starts with neither a `\w` character nor whitespace (`-42`, `[1]`, nothing) does not match |
| `ItemPattern.NewlineValueDropped` | suzerain-save-editor.py:166-167 | when the key holds no quote or newline, an item whose quoted value spans a newline does not match, provided the text before the newline holds no quote or newline and does not start with `]` |
| `Codec.WrapperBody` | suzerain-save-editor.py:130-134 | a body found lies between a `Variable={` and a `};` in the input |
| `Codec.NoWrapper` | suzerain-save-editor.py:130-132 | with no `};` after the first `Variable={`, or no `Variable={` at all, there is no body |
| `Codec.WrapperBodyFirst` | suzerain-save-editor.py:130-134 | the body runs from the first `Variable={` to the first `};` after it |
| `Codec.Classify` | suzerain-save-editor.py:171-184 | a literal with a quote at both ends is the text between them; a boolean only from `true`/`false` in any case; an integer only where `int()` gives it and the literal is not a boolean; any other unquoted literal is itself as text, and is neither a boolean nor accepted by `int()` |
| `Codec.ClassifyToken` | suzerain-save-editor.py:171-184 | a quoted literal is the text inside its quotes; a word is a boolean exactly when it spells `true`/`false` in any case, otherwise an integer exactly when `int()` accepts it, otherwise the word itself as text |
| `Codec.DecodeItem` | suzerain-save-editor.py:161-185 | an item gives at most one entry, and gives one exactly when it is non-empty and matches; that entry is the key group with the classified value group, and its key holds no newline |
| `Codec.DecodeItems` | suzerain-save-editor.py:160-187 | there are no more entries than items; no items give no entries, a single item gives what it decodes to, and no key holds a newline |
| `Codec.DecodeItemsAppend` | suzerain-save-editor.py:160-187 | decoding keeps the items' order and every duplicate: items followed by more items give their entries followed by the others' |
| `Codec.Decode` | suzerain-save-editor.py:127-187 | `parse_variables` as a function: no wrapper gives no entries, and no key holds a newline |
| `Codec.ParseVariables` | suzerain-save-editor.py:127-187 | the imperative parse, with its split and its matching loop, gives what `Decode` gives |
| `Codec.Literal` | suzerain-save-editor.py:355-362 | `true`/`false` for a boolean; for an integer, its plain decimal form (no leading zero, `-` exactly when negative), which `int()` reads back as it; for a text, the text between two double quotes with nothing escaped |
| `Codec.EncodeEntry` | suzerain-save-editor.py:364 | the item `["key"]=literal`; what it decodes to is stated by `RoundTrip.DecodeEntryText` and `RoundTrip.NegativeIntDropped` |
| `Codec.ItemsText` | suzerain-save-editor.py:354-366 | the text between the braces is empty exactly when the list is |
| `Codec.Encode` | suzerain-save-editor.py:353-367 | the output starts with `Variable={` and ends with `};` |
| `Codec.EncodeEmpty` | suzerain-save-editor.py:353-367 | the empty list is written as exactly `Variable={};` |
| `RoundTrip.LiteralLayout` | suzerain-save-editor.py:355-362 | the literal of a carried value is a value token, quoted exactly for text, with no `};` in it |
| `RoundTrip.ClassifyLiteral` | suzerain-save-editor.py:171-184 | classifying the literal written for a carried value gives the value back |
| `RoundTrip.EntryLayout` | suzerain-save-editor.py:364 | the item written for a carried entry starts with `[`, is trimmed, holds no `};` and has the key-and-literal layout |
| `RoundTrip.TopLevelOfJoined` | suzerain-save-editor.py:141-157 | the top-level split of items joined by `", "` gives the items back, when each item is scanned whole |
| `RoundTrip.WrapperOfText` | suzerain-save-editor.py:130 | the wrapper search finds a body again when the body holds no `};` |
| `RoundTrip.DecodeEntryText` | suzerain-save-editor.py:364 | the item written for a carried entry decodes to that entry |
| `RoundTrip.NegativeIntDropped` | suzerain-save-editor.py:358-364 | when the key holds no quote or newline, an entry with a negative integer is written with a leading `-` and decodes to nothing |
| `RoundTrip.DecodeEncode` | suzerain-save-editor.py:127-187 | decoding what the encoder (lines 353-367) writes gives the list back, in order and with duplicates, when no key or text holds a quote, bracket, newline or `};` and no integer is negative |
| `Divergence.ReencodeLosesEntry` | suzerain-save-editor.py:141-157 | `Variable={["k"]="a["], ["j"]=1};` decodes to two entries, and decoding its encoding (lines 353-367) gives only the first: the round trip through the file loses an entry |
| `Editor.SaveGameEditor.constructor` | suzerain-save-editor.py:23 | a new editor holds no variables |
| `Editor.SaveGameEditor.LoadVariables` | suzerain-save-editor.py:115-116 | the list becomes the decoding of the `variables` string it is given |
| `Editor.SaveGameEditor.SetFirst` | suzerain-save-editor.py:287-290 | the update loop with its `break` leaves the list as `Replace` describes it |
| `Editor.SaveGameEditor.SaveCombo` | suzerain-save-editor.py:281-293 | the first entry with the key becomes true exactly when `true` was chosen; nothing else changes |
| `Editor.SaveGameEditor.SaveString` | suzerain-save-editor.py:315-327 | the first entry with the key gets the text as typed; nothing else changes |
| `Editor.SaveGameEditor.SaveEntry` | suzerain-save-editor.py:295-313 | input failing the `lstrip('-').isdigit()` check is rejected, with the list unchanged; input passing it is stored as its `int()` value in the first entry with the key; when `int()` raises on a found key, nothing is stored |
| `Editor.PassesIntCheck` | suzerain-save-editor.py:300 | the test `new_value.lstrip('-').isdigit()` |
| `Editor.PassesIntCheckShape` | suzerain-save-editor.py:300 | the input passes the check exactly when it is some `-` signs followed by a non-empty run of digits |
| `Editor.IntCheckedInput` | suzerain-save-editor.py:300-306 | for input passing the check, `int()` succeeds exactly when there is at most one leading `-`, and gives the digits' value, negated when there is one |
| `Editor.DoubleDashPassesCheck` | suzerain-save-editor.py:300-306 | `--5` passes the check and `int()` rejects it |
| `Editor.IntEditOfDisplay` | suzerain-save-editor.py:264 | the text shown for an integer passes the check and converts back to the same integer |
| `Editor.SaveGameEditor.FilterTree` | suzerain-save-editor.py:205-220 | the entries shown are those whose lower-cased key contains the lower-cased search text, in list order; an empty search shows the whole list |
| `Editor.Matching` | suzerain-save-editor.py:215-218 | the filter gives no more entries than the list has, and every entry it gives has a lower-cased key that contains the search text |
| `Editor.MatchingMembers` | suzerain-save-editor.py:216-218 | an entry is shown exactly when it is in the list and its lower-cased key contains the search text |
| `Editor.MatchingAppend` | suzerain-save-editor.py:215-218 | filtering keeps the list's order: the filter of two lists one after the other is the two filters one after the other |
| `Editor.MatchingEmpty` | suzerain-save-editor.py:209-212 | an empty search text keeps every entry |
| `Editor.PopulateTree` | suzerain-save-editor.py:194-203 | one row per entry, in order, with the key and the display text of its value |
| `Editor.SaveGameEditor.RebuildVariables` | suzerain-save-editor.py:352-367 | the loop that appends items and separators builds exactly `Encode` of the list |
| `Editor.RebuildStep` | suzerain-save-editor.py:363-366 | the text between the braces grows by one item per step, after `", "` unless it is the first |

## Left out

- The Tk interface is not modelled: widgets, styling, the tree's item ids,
  inline editor placement, focus and event binding, and the status-bar
  messages. The tree view appears only as the rows `PopulateTree` returns
  and the entries `FilterTree` selects.
- File and OS work is not modelled: file dialogs, reading and writing the
  JSON document, the `.bak` copy and the default save directory.
  `LoadVariables` takes the `variables` string as a parameter, and
  `RebuildVariables` returns the new string instead of storing it in the
  document.
- Text is a sequence of characters. `\w`, `str.isdigit()`, the digits
  `int()` accepts and `lower()` are limited to ASCII, since Unicode's
  character classes and case-mapping tables are outside the model. Python's
  versions also accept other Unicode letters and digits and lower-case other
  alphabets. So in `save_entry` a superscript such as `²` passes Python's
  `isdigit()` and then makes `int()` raise, and an Arabic-Indic `٣` is stored
  as 3, where the model answers `InvalidInteger` for both.
- `int()` is modelled with an optional sign, surrounding whitespace, and
  single underscores between digits. Non-ASCII digits are left out.
- The integers here are unbounded. Python 3.11 and later (and the security
  releases of earlier versions) refuse to convert text of more than 4300
  digits with `int()` or `str()`. On such a word value `parse_variables`
  falls back to text, where `Codec.Classify` gives an integer. Encoding an
  integer that long raises in `save_savegame`, where `Codec.Literal` writes
  it. In `save_entry`, input of more than 4300 digits passes the `isdigit()`
  check, and `int()` then raises once the key is found; there
  `Editor.SaveGameEditor.SaveEntry` stores the value and answers `Updated`.
- The line `LoadVariables` reads is `save_data.get("variables", "")`. Its
  default for a missing field is part of the JSON handling that is left out
  above.
- `ItemPattern.BadValueDropped`: proved only for values that do not start
  with whitespace. With whitespace after the `=`, the regex skips it and
  looks at the next character.
- An exception that `int()` raises inside `save_entry` escapes the Tk
  callback. The model does not show what the Tk event loop then does; it
  returns `IntRaised` with the list unchanged.
- The rest of the table handling (`on_double_click` and the `edit_*`
  widgets) only selects an editor by the value's type and is left out.
