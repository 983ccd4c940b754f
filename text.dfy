/**
 * The string operations the services rely on: Go's `strings.Split` with a
 * one-character separator, the e-mail domain taken as its second field, and the
 * suffix match that `LIKE '%' + domain` performs.
 */
module Text {

  /**
   * The fields of `s` between the occurrences of `sep`, each free of `sep`
   * (`strings.Split(s, sep)`); `SplitFieldCount` shows there is one more field
   * than there are separators.
   */
  function Split(s: string, sep: char): (fields: seq<string>)
    ensures |fields| >= 1
    ensures forall i :: 0 <= i < |fields| ==> sep !in fields[i]
    ensures |fields| == 1 <==> sep !in s
    decreases |s|
  {
    if s == [] then [[]]
    else
      var rest := Split(s[1..], sep);
      assert s == [s[0]] + s[1..];
      if s[0] == sep then [[]] + rest
      else [[s[0]] + rest[0]] + rest[1..]
  }

  /** The fields written back with `sep` between them (`strings.Join`). */
  function Join(fields: seq<string>, sep: char): string
    requires |fields| >= 1
  {
    if |fields| == 1 then fields[0]
    else fields[0] + [sep] + Join(fields[1..], sep)
  }

  /** How many times `c` occurs in `s`. */
  function Occurrences(s: string, c: char): nat
  {
    multiset(s)[c]
  }

  /** A split has exactly one more field than the string has separators. */
  lemma {:induction false} SplitFieldCount(s: string, sep: char)
    ensures |Split(s, sep)| == Occurrences(s, sep) + 1
    decreases |s|
  {
    if s != [] {
      SplitFieldCount(s[1..], sep);
      assert s == [s[0]] + s[1..];
      if s[0] == sep {
        SplitLeadingSeparator(s[1..], sep);
      } else {
        SplitLeadingChar(s[0], s[1..], sep);
      }
      assert multiset(s) == multiset([s[0]]) + multiset(s[1..]);
    }
  }

  /** Joining a field in front of at least one more puts the separator between them. */
  lemma JoinFront(field: string, rest: seq<string>, sep: char)
    requires |rest| >= 1
    ensures Join([field] + rest, sep) == field + [sep] + Join(rest, sep)
  {
    assert ([field] + rest)[1..] == rest;
  }

  /** If the fields of `t` join back to `t`, those of `c` followed by `t` join back as well. */
  lemma JoinSplitStep(c: char, t: string, sep: char)
    requires Join(Split(t, sep), sep) == t
    ensures Join(Split([c] + t, sep), sep) == [c] + t
  {
    var rest := Split(t, sep);
    if c == sep {
      SplitLeadingSeparator(t, sep);
      JoinFront([], rest, sep);
    } else {
      SplitLeadingChar(c, t, sep);
      JoinExtendsFirstField(c, rest, sep);
    }
  }

  /** Putting `c` in front of the first field puts it in front of the join. */
  lemma JoinExtendsFirstField(c: char, fields: seq<string>, sep: char)
    requires |fields| >= 1
    ensures Join([[c] + fields[0]] + fields[1..], sep) == [c] + Join(fields, sep)
  {
    if |fields| > 1 {
      JoinFront([c] + fields[0], fields[1..], sep);
      JoinFront(fields[0], fields[1..], sep);
      assert fields == [fields[0]] + fields[1..];
    }
  }

  /** Joining the fields of a split gives the string back. */
  lemma {:induction false} JoinSplit(s: string, sep: char)
    ensures Join(Split(s, sep), sep) == s
    decreases |s|
  {
    if s != [] {
      JoinSplit(s[1..], sep);
      JoinSplitStep(s[0], s[1..], sep);
      assert s == [s[0]] + s[1..];
    }
  }

  /** A string without the separator is a single field. */
  lemma {:induction false} SplitWithoutSeparator(a: string, sep: char)
    requires sep !in a
    ensures Split(a, sep) == [a]
    decreases |a|
  {
    if a != [] {
      SplitWithoutSeparator(a[1..], sep);
      SplitLeadingChar(a[0], a[1..], sep);
      assert a == [a[0]] + a[1..];
    }
  }

  /** A leading separator closes an empty first field. */
  lemma SplitLeadingSeparator(t: string, sep: char)
    ensures Split([sep] + t, sep) == [[]] + Split(t, sep)
  {
    assert ([sep] + t)[1..] == t;
  }

  /** A leading non-separator character joins the first field of the rest. */
  lemma SplitLeadingChar(c: char, t: string, sep: char)
    requires c != sep
    ensures var rest := Split(t, sep);
      Split([c] + t, sep) == [[c] + rest[0]] + rest[1..]
  {
    assert ([c] + t)[1..] == t;
  }

  /** The text before the first separator is the first field; the rest is split on. */
  lemma {:induction false} SplitAtFirst(a: string, b: string, sep: char)
    requires sep !in a
    ensures Split(a + [sep] + b, sep) == [a] + Split(b, sep)
    decreases |a|
  {
    if a == [] {
      assert a + [sep] + b == [sep] + b;
      SplitLeadingSeparator(b, sep);
    } else {
      var t := a[1..] + [sep] + b;
      assert a + [sep] + b == [a[0]] + t;
      SplitAtFirst(a[1..], b, sep);
      SplitLeadingChar(a[0], t, sep);
      assert [a[0]] + a[1..] == a;
    }
  }

  /** Splitting a join of separator-free fields gives the fields back. */
  lemma {:induction false} SplitJoin(fields: seq<string>, sep: char)
    requires |fields| >= 1
    requires forall i :: 0 <= i < |fields| ==> sep !in fields[i]
    ensures Split(Join(fields, sep), sep) == fields
    decreases |fields|
  {
    if |fields| == 1 {
      SplitWithoutSeparator(fields[0], sep);
    } else {
      SplitJoin(fields[1..], sep);
      SplitAtFirst(fields[0], Join(fields[1..], sep), sep);
      assert fields == [fields[0]] + fields[1..];
    }
  }

  /**
   * `strings.Split(email, "@")[1]`: the text between the first `@` and the
   * next `@` or the end. Go panics on an address without `@` (the index is out
   * of range), hence the precondition.
   */
  function EmailDomain(email: string): (domain: string)
    requires '@' in email
    ensures '@' !in domain
    ensures |domain| < |email|
  {
    var fields := Split(email, '@');
    JoinSplit(email, '@');
    assert Join(fields, '@') == fields[0] + ['@'] + Join(fields[1..], '@');
    JoinLength(fields[1..], '@');
    fields[1]
  }

  /** A join is at least as long as its first field. */
  lemma JoinLength(fields: seq<string>, sep: char)
    requires |fields| >= 1
    ensures |fields[0]| <= |Join(fields, sep)|
  {
  }

  /**
   * Every address `local@domain` or `local@domain@more` has `domain` as its
   * e-mail domain, whatever `local` and `domain` are (as long as they hold no `@`).
   */
  lemma DomainOfAddress(local: string, domain: string, more: string)
    requires '@' !in local && '@' !in domain
    requires more == [] || more[0] == '@'
    ensures '@' in local + ['@'] + domain + more
    ensures EmailDomain(local + ['@'] + domain + more) == domain
  {
    var email := local + ['@'] + domain + more;
    assert email[|local|] == '@';
    assert email == local + ['@'] + (domain + more);
    SplitAtFirst(local, domain + more, '@');
    if more == [] {
      assert domain + more == domain;
      SplitWithoutSeparator(domain, '@');
    } else {
      assert domain + more == domain + ['@'] + more[1..];
      SplitAtFirst(domain, more[1..], '@');
    }
  }

  /** `s LIKE '%' + suffix` with no wildcard in `suffix`: `s` ends with `suffix`. */
  predicate EndsWith(s: string, suffix: string)
  {
    |suffix| <= |s| && s[|s| - |suffix|..] == suffix
  }

  /** An address with a single `@` ends with its own domain, so it matches itself. */
  lemma AddressMatchesOwnDomain(local: string, domain: string)
    requires '@' !in local && '@' !in domain
    ensures '@' in local + ['@'] + domain
    ensures EndsWith(local + ['@'] + domain, EmailDomain(local + ['@'] + domain))
  {
    DomainOfAddress(local, domain, []);
    assert local + ['@'] + domain + [] == local + ['@'] + domain;
  }

  /**
   * The suffix match is looser than a domain match: a search for `example.com`
   * also finds `x@notexample.com`, whose domain is `notexample.com`.
   */
  lemma SuffixMatchIsLooserThanDomain(local: string, extra: string, domain: string)
    requires '@' !in local && '@' !in extra && '@' !in domain
    requires extra != []
    ensures '@' in local + ['@'] + extra + domain
    ensures EndsWith(local + ['@'] + extra + domain, domain)
    ensures EmailDomain(local + ['@'] + extra + domain) != domain
  {
    var email := local + ['@'] + extra + domain;
    assert email == local + ['@'] + (extra + domain) + [];
    DomainOfAddress(local, extra + domain, []);
    assert email[|email| - |domain|..] == domain;
  }
}
