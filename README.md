# Student email and roster helpers, modelled in Dafny

This project models the logic in `codelab/functions.py` of the graphics
codelab repository. That file turns a class list into student email
addresses and export records. The model covers four operations:

- **`generate_email(name)`** (module `Emails`). The name is split on runs of
  whitespace and commas, exactly as `re.split(r'[\s,]+', name)` does.
  - The first character of the first token and the whole last token are
    lower-cased and joined.
  - Everything that is not an ASCII letter is removed, and `@gmail.com` is
    appended.
  - An empty first token makes the Python code raise `IndexError`. This
    happens for an empty name or a name that starts with a delimiter. The
    model returns `Err(IndexError)` in that case.
- **`make_unique(emails)`** (module `Unique`). This is an imperative method
  with the same `seen` dictionary and output list as the source.
  - It is proved equal to a position-by-position specification, `Resolved`.
  - The first occurrence of an email is kept. Its k-th repeat becomes the text
    before its first `@`, then k in decimal, then `@gmail.com`.
  - Counters are keyed by the original email, not by the emitted one. The
    model keeps this behaviour (see `EmittedSuffixNotTracked`).
- **`get_students_by_gender(df, gender)`** (module `Roster`). This is an
  order-preserving filter over table rows.
- **`build_jsonl(shuffled_df, special_char_names)`** (module `Roster`). A
  counter-driven loop emits one record per row.
  - Records carry sequential ids, the student number and one details entry.
  - The details entry holds the formatted date of birth, the gender and the
    `"['yes']"` / `"['no']"` sentinel.

Module `Text` holds the string primitives these are built from:
- the character classes of the split pattern;
- ASCII `str.lower()`;
- the `[^a-zA-Z]` filter;
- decimal rendering of a counter.

The date formatter (`strftime("%Y-%m-%d")`) is a parameter of `BuildJsonl`.
The date-of-birth type is a type parameter.

## Model

| member | source | states |
|---|---|---|
| Text.LowerChar | codelab/functions.py:31 | lower-casing one ASCII character maps each capital to its own lower-case letter (code plus 32), leaves every other character unchanged, and never leaves an upper-case letter |
| Text.Lower | codelab/functions.py:31 | `str.lower()` keeps the length and leaves no upper-case ASCII letter |
| Text.LowerPointwise | codelab/functions.py:31 | `str.lower()` works character by character |
| Text.LowerAppend | codelab/functions.py:31 | lower-casing a concatenation lower-cases each part |
| Text.KeepLetters | codelab/functions.py:34 | `re.sub(r'[^a-zA-Z]', '', s)` is no longer than `s` and holds only letters; it is lower-case when `s` is; it is the identity on a string of letters and empty on a string without letters |
| Text.KeepLettersAppend | codelab/functions.py:34 | the letter filter distributes over concatenation |
| Text.LowerKeepLettersCommute | codelab/functions.py:31-34 | lower-casing then filtering equals filtering then lower-casing |
| Text.Decimal | codelab/functions.py:53 | the f-string rendering of a counter is a non-empty digit string with no leading zero, one digit exactly below 10 |
| Text.DecimalRoundTrip | codelab/functions.py:53 | reading the rendered counter back as a number gives the counter |
| Text.DecimalInjective | codelab/functions.py:53 | different counters render differently |
| Emails.Split | codelab/functions.py:30 | `re.split(r'[\s,]+', s)` returns at least one token, and the first token is the longest delimiter-free prefix of `s` |
| Emails.SplitWordPrefix | codelab/functions.py:30 | a word before a delimiter, or before the end, joins the first token of what follows |
| Emails.SplitRunPrefix | codelab/functions.py:30 | a whole delimiter run puts one empty token in front of the tokens of what follows |
| Emails.SplitStep | codelab/functions.py:30 | a string that holds a delimiter is a word, a maximal run and a rest, and its tokens are the word followed by the tokens of the rest |
| Emails.SeparatorsStep | codelab/functions.py:30 | the first separator cut out is the maximal run after the first word |
| Emails.SplitNoDelimiter | codelab/functions.py:30 | a string without delimiters is one token and has no separators |
| Emails.SplitShape | codelab/functions.py:30 | no token contains a delimiter, and only the first and last tokens may be empty |
| Emails.SeparatorsShape | codelab/functions.py:30 | every discarded separator is a non-empty run of whitespace and commas |
| Emails.SplitRoundTrip | codelab/functions.py:30 | there is one more token than separator, and interleaving them gives back the input |
| Emails.LastTokenEmpty | codelab/functions.py:30 | the last token is empty exactly when the string is empty or ends in a delimiter |
| Emails.SplitSingleToken | codelab/functions.py:30 | a name without delimiters splits into itself alone |
| Emails.SplitTwoTokens | codelab/functions.py:30 | two non-empty words around one delimiter run split into exactly those two words |
| Emails.GenerateEmail | codelab/functions.py:23-35 | the call fails with `IndexError` exactly when the name is empty or starts with whitespace or a comma |
| Emails.GenerateEmailShape | codelab/functions.py:33-35 | every address produced is lower-case ASCII letters followed by `@gmail.com` |
| Emails.LocalPartOfParts | codelab/functions.py:31-34 | filtering the joined, lower-cased parts equals joining the parts filtered and lower-cased separately |
| Emails.InitialAndLastToken | codelab/functions.py:30-34 | the address is the name's first letter and the last token, each reduced to lower-case letters, then `@gmail.com` |
| Emails.FirstAndLastName | codelab/functions.py:26-35 | for a first name, a separator run and a last name, the address is the first initial plus the last name |
| Emails.SingleTokenName | codelab/functions.py:30-34 | a one-word name is used twice: its initial, then the whole word |
| Emails.TrailingDelimiterName | codelab/functions.py:30-34 | a trailing delimiter makes the last token empty, so the address keeps only the initial |
| Emails.ExampleErrors | codelab/functions.py:30-31 | `""` and `" Jane"` both raise `IndexError` |
| Unique.LocalPart | codelab/functions.py:53 | `email.split('@')[0]` is a prefix of the email without '@', followed by '@' when shorter |
| Unique.Resolved | codelab/functions.py:47-56 | the specification of the output list has one entry per input |
| Unique.ResolvedAppend | codelab/functions.py:47-54 | appending an input appends one output and leaves earlier outputs unchanged |
| Unique.ResolvedPrefix | codelab/functions.py:47-56 | output `i` depends only on inputs `0..i`: resolving a prefix gives the prefix of the output |
| Unique.LocalPartOfSuffixed | codelab/functions.py:53 | the text before '@' of a suffixed address is the original local part followed by the counter |
| Unique.SuffixedDiffers | codelab/functions.py:53 | a suffixed address never equals the email it was made from |
| Unique.SuffixedInjective | codelab/functions.py:52-53 | different counters give different suffixed addresses |
| Unique.FirstOccurrenceKept | codelab/functions.py:48-50 | the first occurrence of an email is emitted unchanged |
| Unique.NoDuplicatesUnchanged | codelab/functions.py:48-50 | a list without repeats comes back unchanged |
| Unique.RepeatNumbered | codelab/functions.py:51-54 | the k-th repeat (k >= 1) is the local part, then k, then `@gmail.com` |
| Unique.SameEmailDistinct | codelab/functions.py:51-54 | repeats of one email are emitted as pairwise different addresses |
| Unique.ThreeCopies | codelab/functions.py:47-54 | three copies become the email, then its first and second suffixed forms |
| Unique.ExampleThreeCopies | codelab/functions.py:47-54 | three copies of `jsmith@gmail.com` become it, `jsmith1@gmail.com` and `jsmith2@gmail.com` |
| Unique.EmittedSuffixNotTracked | codelab/functions.py:44-54 | a later input equal to an already emitted suffixed address is emitted unchanged, so the output repeats it |
| Unique.MakeUnique | codelab/functions.py:38-56 | the loop over `seen` and the output list returns exactly `Resolved(emails)`; its invariant keeps `seen` keyed by the inputs met so far, each counter one less than the occurrences |
| Roster.StudentsByGender | codelab/functions.py:59-68 | the filter returns no more rows than it was given, all of the requested gender |
| Roster.StudentsByGenderAppend | codelab/functions.py:66-68 | filtering a concatenation filters each part, keeping relative order |
| Roster.MatchPositions | codelab/functions.py:66-68 | the positions of the matching rows lie within the table |
| Roster.MatchPositionsExact | codelab/functions.py:66-68 | the positions are exactly those of the matching rows, strictly increasing |
| Roster.StudentsByGenderPositionsFrom | codelab/functions.py:66-68 | from any start position, the filtered suffix is the rows at the matching positions |
| Roster.StudentsByGenderPositions | codelab/functions.py:66-68 | the k-th row yielded is the row at the k-th matching position |
| Roster.SpecialFlag | codelab/functions.py:83-87 | the sentinel is `"['yes']"` exactly when the name is listed, otherwise `"['no']"` |
| Roster.BuildJsonl | codelab/functions.py:71-104 | one record per row, in row order, with `id == i`, the student number copied and one details entry of formatted date, gender and sentinel |

## Left out

- `combine_dataframes` (codelab/functions.py:12-20) is a wrapper over `pandas.concat`. Only the sequence concatenation it amounts to is visible, and pandas reindexing is not, so it is not modelled.
- `create_folder` and `upload_files` (codelab/functions.py:107-142) are Google Drive API calls, filesystem walking and logging. They are I/O and foreign calls.
- `strftime("%Y-%m-%d")` on the date of birth is the `formatDate` parameter of `BuildJsonl`. Its output format and its failure on a missing date are not modelled.
- GenerateEmail: requires an ASCII name. Python's `str.lower()` and the regex `\s` class on non-ASCII characters (Unicode case mapping, Unicode whitespace) are not modelled. On ASCII, `\s` is codes 9-13 and 28-32, as `str.isspace` defines it.
- The regular-expression engine is not modelled. The split on `[\s,]+` and the filter on `[^a-zA-Z]` are written out as explicit recursive functions.
- `get_students_by_gender` is a generator. Its laziness, and interleaving with changes to the table, are not modelled; the result is the whole filtered sequence.
- Pandas row semantics are not modelled. This covers missing values (NaN), column dtypes and the `Student Name` membership test on non-string values. A row is the four columns the code reads.
- Roster.BuildJsonl: the record is a datatype, not a JSON dictionary. Key order and JSON serialisation are not modelled.
