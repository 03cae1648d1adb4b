/** Email synthesis from a student's display name (`generate_email`): split
    the name on runs of whitespace and commas, take the first character of
    the first token and the whole last token, lower-case them, keep only the
    ASCII letters and append the Gmail domain. */
module Emails {
  import opened Text

  datatype Result<T, E> = Ok(value: T) | Err(error: E)

  /** The exception `generate_email` raises: indexing the first character
      of an empty first token. */
  datatype Error = IndexError

  /** A string with no delimiter in it. */
  predicate IsWord(t: string) {
    AllInClass(t, WordChars)
  }

  /** A string made only of delimiters. */
  predicate IsRun(t: string) {
    AllInClass(t, Delimiters)
  }

  /** `re.split(r'[\s,]+', s)`: the maximal delimiter runs cut `s` into
      tokens. A leading run yields an empty first token, a trailing run an
      empty last token, and the empty string yields one empty token. Read
      from the right, one character at a time: a name character joins the
      first token, a delimiter that ends its run opens a new (empty) first
      token, and a delimiter inside a run is dropped. */
  function Split(s: string): (tokens: seq<string>)
    ensures 1 <= |tokens|
    ensures tokens[0] == Span(s, WordChars)
    decreases |s|
  {
    if s == [] then [[]]
    else
      var tail := Split(s[1..]);
      if !IsDelimiter(s[0]) then [[s[0]] + tail[0]] + tail[1..]
      else if 1 < |s| && IsDelimiter(s[1]) then tail
      else [[]] + tail
  }

  /** A word followed by a delimiter (or by nothing) is prepended to the
      first token of what follows it. */
  lemma {:induction false} SplitWordPrefix(word: string, rest: string)
    requires IsWord(word) && (rest == [] || IsDelimiter(rest[0]))
    ensures Split(word + rest) == [word + Split(rest)[0]] + Split(rest)[1..]
    decreases |word|
  {
    var tail := Split(rest);
    if word == [] {
      assert word + rest == rest && word + tail[0] == tail[0];
      assert [tail[0]] + tail[1..] == tail;
    } else {
      var s := word + rest;
      assert s[0] == word[0] && s[1..] == word[1..] + rest;
      SplitWordPrefix(word[1..], rest);
      var inner := Split(s[1..]);
      assert inner == [word[1..] + tail[0]] + tail[1..];
      assert Split(s) == [[word[0]] + inner[0]] + inner[1..];
      assert [word[0]] + (word[1..] + tail[0]) == word + tail[0];
    }
  }

  /** A whole delimiter run, followed by a name character or by nothing,
      contributes one empty token in front of what follows it. */
  lemma {:induction false} SplitRunPrefix(run: string, rest: string)
    requires run != [] && IsRun(run) && (rest == [] || !IsDelimiter(rest[0]))
    ensures Split(run + rest) == [[]] + Split(rest)
    decreases |run|
  {
    var s := run + rest;
    assert s[1..] == run[1..] + rest;
    if 1 < |run| {
      assert s[1] == run[1];
      SplitRunPrefix(run[1..], rest);
    }
  }

  /** The delimiter runs `Split` cuts at, in order: what `re.split` discards. */
  ghost function Separators(s: string): (runs: seq<string>)
    decreases |s|
  {
    var word := Span(s, WordChars);
    var rest := s[|word|..];
    if rest == [] then []
    else
      var run := Span(rest, Delimiters);
      [run] + Separators(rest[|run|..])
  }

  /** Puts tokens and separators back together, alternating. */
  ghost function Weave(tokens: seq<string>, runs: seq<string>): string
    requires |tokens| == |runs| + 1
    decreases |runs|
  {
    if runs == [] then tokens[0] else tokens[0] + runs[0] + Weave(tokens[1..], runs[1..])
  }

  /** One step of the split of a string that holds a delimiter: a word, the
      delimiter run after it, and the remainder, which does not start with a
      delimiter. */
  lemma SplitStep(s: string) returns (word: string, run: string, next: string)
    requires Span(s, WordChars) != s
    ensures s == word + run + next
    ensures IsWord(word) && run != [] && IsRun(run) && (next == [] || !IsDelimiter(next[0]))
    ensures Split(s) == [word] + Split(next)
    ensures |next| < |s|
  {
    word := Span(s, WordChars);
    var rest := s[|word|..];
    run := Span(rest, Delimiters);
    next := rest[|run|..];
    assert rest == run + next;
    assert s == word + rest;
    SplitWordPrefix(word, rest);
    SplitRunPrefix(run, next);
  }

  /** The separator list of a word, a run and a remainder starts with that
      run. */
  lemma SeparatorsStep(word: string, run: string, next: string)
    requires IsWord(word) && run != [] && IsRun(run) && (next == [] || !IsDelimiter(next[0]))
    ensures Separators(word + run + next) == [run] + Separators(next)
  {
    var s := word + run + next;
    assert s == word + (run + next);
    SpanOfPrefix(word, run + next, WordChars);
    assert s[|word|..] == run + next;
    SpanOfPrefix(run, next, Delimiters);
    assert (run + next)[|run|..] == next;
  }

  /** A string without delimiters is its own only token. */
  lemma SplitNoDelimiter(s: string)
    requires Span(s, WordChars) == s
    ensures Split(s) == [s] && Separators(s) == []
  {
    assert s[|s|..] == [];
    assert s + [] == s;
    SplitWordPrefix(s, []);
  }

  /** Every token is free of delimiters, and only the first and last
      tokens can be empty. */
  lemma {:induction false} SplitShape(s: string)
    ensures var tokens := Split(s);
      && (forall k :: 0 <= k < |tokens| ==> IsWord(tokens[k]))
      && (forall k :: 0 < k < |tokens| - 1 ==> tokens[k] != [])
    decreases |s|
  {
    if Span(s, WordChars) == s {
      SplitNoDelimiter(s);
    } else {
      var word, run, next := SplitStep(s);
      SplitShape(next);
    }
  }

  /** Every separator is a non-empty run of delimiters. */
  lemma {:induction false} SeparatorsShape(s: string)
    ensures var runs := Separators(s);
      forall k :: 0 <= k < |runs| ==> runs[k] != [] && IsRun(runs[k])
    decreases |s|
  {
    if Span(s, WordChars) == s {
      SplitNoDelimiter(s);
    } else {
      var word, run, next := SplitStep(s);
      SeparatorsStep(word, run, next);
      SeparatorsShape(next);
    }
  }

  /** Splitting loses nothing but the delimiters: weaving the tokens back
      together with the separators gives the original string. */
  lemma {:induction false} SplitRoundTrip(s: string)
    ensures |Split(s)| == |Separators(s)| + 1
    ensures Weave(Split(s), Separators(s)) == s
    decreases |s|
  {
    if Span(s, WordChars) == s {
      SplitNoDelimiter(s);
    } else {
      var word, run, next := SplitStep(s);
      SeparatorsStep(word, run, next);
      SplitRoundTrip(next);
      var tokens, runs := Split(next), Separators(next);
      assert ([word] + tokens)[1..] == tokens && ([run] + runs)[1..] == runs;
    }
  }

  /** The last token is empty exactly when the name is empty or ends in a
      delimiter. */
  lemma {:induction false} LastTokenEmpty(s: string)
    ensures var tokens := Split(s); tokens[|tokens| - 1] == [] <==> s == [] || IsDelimiter(s[|s| - 1])
    decreases |s|
  {
    if Span(s, WordChars) == s {
      SplitNoDelimiter(s);
    } else {
      var word, run, next := SplitStep(s);
      LastTokenEmpty(next);
      var tokens := Split(next);
      assert Split(s)[|Split(s)| - 1] == tokens[|tokens| - 1];
      LastCharOfStep(word, run, next);
    }
  }

  lemma LastCharOfStep(word: string, run: string, next: string)
    requires run != []
    ensures var s := word + run + next;
      s[|s| - 1] == if next == [] then run[|run| - 1] else next[|next| - 1]
  {
  }

  /** A name without delimiters is a single token. */
  lemma SplitSingleToken(s: string)
    requires IsWord(s)
    ensures Split(s) == [s]
  {
    SplitWordPrefix(s, []);
    assert s + [] == s;
  }

  /** Two non-empty words separated by one delimiter run are the two tokens. */
  lemma SplitTwoTokens(first: string, run: string, last: string)
    requires first != [] && IsWord(first) && run != [] && IsRun(run) && last != [] && IsWord(last)
    ensures Split(first + run + last) == [first, last]
  {
    assert first + run + last == first + (run + last);
    SplitRunPrefix(run, last);
    SplitSingleToken(last);
    assert Split(run + last) == [[], last];
    SplitWordPrefix(first, run + last);
    assert first + [] == first;
  }

  /** `generate_email(name)` for an ASCII name. */
  function GenerateEmail(name: string): (r: Result<string, Error>)
    requires IsAscii(name)
    ensures r.Err? <==> name == [] || IsDelimiter(name[0])
  {
    var parts := Split(name);
    if parts[0] == [] then Err(IndexError)
    else
      Ok(KeepLetters(Lower([parts[0][0]]) + Lower(parts[|parts| - 1])) + GmailDomain)
  }

  /** An address of the form `<lower-case ASCII letters>@gmail.com`. */
  predicate IsLowercaseGmail(email: string) {
    && |GmailDomain| <= |email|
    && email[|email| - |GmailDomain|..] == GmailDomain
    && IsLowerWord(email[..|email| - |GmailDomain|])
  }

  /** Every address `generate_email` returns is lower-case ASCII letters
      followed by the Gmail domain. */
  lemma GenerateEmailShape(name: string)
    requires IsAscii(name)
    ensures var r := GenerateEmail(name); r.Ok? ==> IsLowercaseGmail(r.value)
  {
  }

  /** The local part is the name's first character followed by the last
      token, each reduced to its letters and lower-cased. */
  lemma InitialAndLastToken(name: string)
    requires IsAscii(name) && name != [] && !IsDelimiter(name[0])
    ensures var tokens := Split(name);
      GenerateEmail(name) == Ok(Lower(KeepLetters([name[0]])) + Lower(KeepLetters(tokens[|tokens| - 1])) + GmailDomain)
  {
    var tokens := Split(name);
    var initial, last := [name[0]], tokens[|tokens| - 1];
    GenerateEmailOk(name);
    LocalPartOfParts(initial, last);
    assert GenerateEmail(name) == Ok(KeepLetters(Lower(initial) + Lower(last)) + GmailDomain);
  }

  /** The success branch of `GenerateEmail`, with the initial taken from
      the name itself (it is the first character of the first token). */
  lemma GenerateEmailOk(name: string)
    requires IsAscii(name) && name != [] && !IsDelimiter(name[0])
    ensures var tokens := Split(name);
      GenerateEmail(name) == Ok(KeepLetters(Lower([name[0]]) + Lower(tokens[|tokens| - 1])) + GmailDomain)
  {
    var tokens := Split(name);
    assert tokens[0][0] == name[0];
  }

  /** Filtering and lower-casing the joined initial and last token is doing
      so to each part. */
  lemma LocalPartOfParts(initial: string, last: string)
    ensures KeepLetters(Lower(initial) + Lower(last)) == Lower(KeepLetters(initial)) + Lower(KeepLetters(last))
  {
    KeepLettersAppend(Lower(initial), Lower(last));
    LowerKeepLettersCommute(initial);
    LowerKeepLettersCommute(last);
  }

  /** A one-token name is used twice: its initial, then the whole name. */
  lemma SingleTokenName(name: string)
    requires IsAscii(name) && name != [] && IsWord(name)
    ensures GenerateEmail(name) == Ok(Lower(KeepLetters([name[0]] + name)) + GmailDomain)
  {
    SplitSingleToken(name);
    InitialAndLastToken(name);
    KeepLettersAppend([name[0]], name);
    LowerAppend(KeepLetters([name[0]]), KeepLetters(name));
  }

  /** The common case, a first and a last name: the address is the first
      name's initial and the last name, lower-cased and reduced to letters. */
  lemma FirstAndLastName(first: string, run: string, last: string)
    requires IsAscii(first + run + last)
    requires first != [] && IsWord(first) && run != [] && IsRun(run) && last != [] && IsWord(last)
    ensures GenerateEmail(first + run + last) == Ok(Lower(KeepLetters([first[0]])) + Lower(KeepLetters(last)) + GmailDomain)
  {
    var name := first + run + last;
    SplitTwoTokens(first, run, last);
    assert name[0] == first[0];
    InitialAndLastToken(name);
  }

  /** A trailing delimiter makes the last token empty, so only the initial
      survives. */
  lemma TrailingDelimiterName(name: string)
    requires IsAscii(name) && name != [] && !IsDelimiter(name[0])
    requires IsDelimiter(name[|name| - 1])
    ensures GenerateEmail(name) == Ok(Lower(KeepLetters([name[0]])) + GmailDomain)
  {
    LastTokenEmpty(name);
    InitialAndLastToken(name);
  }

  /** An empty name and a name that starts with a delimiter both fail. */
  lemma ExampleErrors()
    ensures GenerateEmail("") == Err(IndexError)
    ensures GenerateEmail(" Jane") == Err(IndexError)
  {
  }
}
