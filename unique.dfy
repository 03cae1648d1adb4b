/** Collision resolution for a batch of candidate emails (`make_unique`).
    Emails are processed in order; the first occurrence of an email is kept,
    and its k-th repeat becomes `<text before the first '@'><k>@gmail.com`.
    Counters are keyed by the candidate email itself, not by what is
    emitted for it. */
module Unique {
  import opened Text

  /** `email.split('@')[0]`: the text before the first '@', or the whole
      email when it has none. */
  function LocalPart(email: string): (p: string)
    ensures |p| <= |email| && p == email[..|p|]
    ensures '@' !in p
    ensures |p| < |email| ==> email[|p|] == '@'
  {
    Span(email, NotAt)
  }

  /** The address emitted for the `k`-th repeat of `email`. */
  function Suffixed(email: string, k: nat): string {
    LocalPart(email) + Decimal(k) + GmailDomain
  }

  /** What is emitted for `email` when `before` are the emails processed
      ahead of it: the email itself the first time, otherwise its local part
      suffixed with the number of earlier occurrences. */
  function Emitted(before: seq<string>, email: string): string {
    var k := multiset(before)[email];
    if k == 0 then email else Suffixed(email, k)
  }

  /** The list `make_unique` returns, position by position. */
  function Resolved(emails: seq<string>): (unique: seq<string>)
    ensures |unique| == |emails|
  {
    seq(|emails|, i requires 0 <= i < |emails| => Emitted(emails[..i], emails[i]))
  }

  /** Appending an email leaves what was emitted for the earlier ones
      alone and emits one more: output `i` depends only on the first `i + 1`
      inputs. */
  lemma ResolvedAppend(emails: seq<string>, email: string)
    ensures Resolved(emails + [email]) == Resolved(emails) + [Emitted(emails, email)]
  {
    var all := emails + [email];
    forall j | 0 <= j < |emails|
      ensures Resolved(all)[j] == Resolved(emails)[j]
    {
      assert all[..j] == emails[..j];
    }
    assert all[..|emails|] == emails;
  }

  /** The local part of a suffixed address is the original local part
      followed by the counter, so the counter can be read back from it. */
  lemma LocalPartOfSuffixed(email: string, k: nat)
    ensures LocalPart(Suffixed(email, k)) == LocalPart(email) + Decimal(k)
  {
    var prefix := LocalPart(email) + Decimal(k);
    assert AllInClass(prefix, NotAt) by {
      assert forall i :: 0 <= i < |Decimal(k)| ==> IsDigit(Decimal(k)[i]);
    }
    SpanOfPrefix(prefix, GmailDomain, NotAt);
  }

  /** A suffixed address never equals the address it was made from. */
  lemma SuffixedDiffers(email: string, k: nat)
    ensures Suffixed(email, k) != email
  {
    LocalPartOfSuffixed(email, k);
  }

  /** Suffixes with different counters give different addresses. */
  lemma SuffixedInjective(email: string, k: nat, m: nat)
    requires Suffixed(email, k) == Suffixed(email, m)
    ensures k == m
  {
    LocalPartOfSuffixed(email, k);
    LocalPartOfSuffixed(email, m);
    var p := LocalPart(email);
    assert (p + Decimal(k))[|p|..] == Decimal(k);
    assert (p + Decimal(m))[|p|..] == Decimal(m);
    DecimalInjective(k, m);
  }

  /** The first occurrence of an email is emitted unchanged. */
  lemma FirstOccurrenceKept(emails: seq<string>, i: nat)
    requires i < |emails| && emails[i] !in emails[..i]
    ensures Resolved(emails)[i] == emails[i]
  {
    assert multiset(emails[..i])[emails[i]] == 0;
  }

  /** The k-th repeat of an email (k >= 1 earlier occurrences) is emitted
      as its local part, then k in decimal, then the Gmail domain; reading
      the local part of the result back gives that counter. */
  lemma RepeatNumbered(emails: seq<string>, i: nat)
    requires i < |emails| && emails[i] in emails[..i]
    ensures var k := multiset(emails[..i])[emails[i]];
      && 1 <= k
      && Resolved(emails)[i] == LocalPart(emails[i]) + Decimal(k) + GmailDomain
      && LocalPart(Resolved(emails)[i]) == LocalPart(emails[i]) + Decimal(k)
  {
    LocalPartOfSuffixed(emails[i], multiset(emails[..i])[emails[i]]);
  }

  /** A list without repeats comes back unchanged. */
  lemma NoDuplicatesUnchanged(emails: seq<string>)
    requires forall i, j :: 0 <= i < j < |emails| ==> emails[i] != emails[j]
    ensures Resolved(emails) == emails
  {
    forall i | 0 <= i < |emails|
      ensures Resolved(emails)[i] == emails[i]
    {
      assert emails[i] !in emails[..i];
      FirstOccurrenceKept(emails, i);
    }
  }

  /** Resolving a prefix gives the prefix of the resolved list. */
  lemma ResolvedPrefix(emails: seq<string>, n: nat)
    requires n <= |emails|
    ensures Resolved(emails[..n]) == Resolved(emails)[..n]
  {
    forall j | 0 <= j < n
      ensures Resolved(emails[..n])[j] == Resolved(emails)[j]
    {
      assert emails[..n][..j] == emails[..j];
    }
  }

  /** Repeats of one email are emitted as pairwise different addresses. */
  lemma SameEmailDistinct(emails: seq<string>, i: nat, j: nat)
    requires i < j < |emails| && emails[i] == emails[j]
    ensures Resolved(emails)[i] != Resolved(emails)[j]
  {
    var e := emails[i];
    var ki, kj := multiset(emails[..i])[e], multiset(emails[..j])[e];
    assert emails[..j] == emails[..i] + [e] + emails[i + 1..j];
    assert kj >= ki + 1;
    if ki == 0 {
      SuffixedDiffers(e, kj);
    } else if Suffixed(e, ki) == Suffixed(e, kj) {
      SuffixedInjective(e, ki, kj);
    }
  }

  /** Three copies of one email become the email, then its first and
      second suffixed forms. */
  lemma ThreeCopies(email: string)
    ensures Resolved([email, email, email]) == [email, Suffixed(email, 1), Suffixed(email, 2)]
  {
    var emails := [email, email, email];
    assert emails[..1] == [email] && emails[..2] == [email, email];
  }

  lemma ExampleThreeCopies()
    ensures var e := "jsmith" + GmailDomain;
      Resolved([e, e, e]) == [e, "jsmith" + "1" + GmailDomain, "jsmith" + "2" + GmailDomain]
  {
    var e := "jsmith" + GmailDomain;
    ThreeCopies(e);
    SpanOfPrefix("jsmith", GmailDomain, NotAt);
  }

  /** Counters are keyed by the candidate, not by what was emitted: a later
      candidate that equals an already-emitted suffixed address starts its
      own chain and is emitted unchanged, so the output repeats it. */
  lemma EmittedSuffixNotTracked(email: string)
    ensures var taken := Suffixed(email, 1);
      Resolved([email, email, taken]) == [email, taken, taken]
  {
    var taken := Suffixed(email, 1);
    SuffixedDiffers(email, 1);
    var emails := [email, email, taken];
    assert emails[..1] == [email] && emails[..2] == [email, email];
    assert taken !in emails[..2];
  }

  /** `make_unique(emails)`: `seen` maps each email met so far to the number
      of times it has been met beyond the first. */
  method MakeUnique(emails: seq<string>) returns (unique: seq<string>)
    ensures unique == Resolved(emails)
  {
    var seen: map<string, nat> := map[];
    unique := [];
    for i := 0 to |emails|
      invariant forall e :: e in seen <==> e in emails[..i]
      invariant forall e :: e in seen ==> seen[e] + 1 == multiset(emails[..i])[e]
      invariant unique == Resolved(emails[..i])
    {
      var email := emails[i];
      ghost var before := emails[..i];
      assert emails[..i + 1] == before + [email];
      assert multiset(emails[..i + 1]) == multiset(before) + multiset{email};
      ResolvedAppend(before, email);
      if email !in seen {
        assert multiset(before)[email] == 0;
        seen := seen[email := 0];
        unique := unique + [email];
      } else {
        seen := seen[email := seen[email] + 1];
        unique := unique + [LocalPart(email) + Decimal(seen[email]) + GmailDomain];
      }
    }
    assert emails[..|emails|] == emails;
  }
}
