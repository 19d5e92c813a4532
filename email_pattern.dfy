/** A recogniser for the anchored e-mail pattern of the credentials schema,
    written out construct by construct:

      ^( atom(\.atom)* | ".+" ) @ ( \[d{1,3}\.d{1,3}\.d{1,3}\.d{1,3}] | ([a-zA-Z\-0-9]+\.)+[a-zA-Z]{2,} )$

    where atom is `[^<>()\[\]\\.,;:\s@"]+` and d is `[0-9]`. The store evaluates it
    with PCRE semantics, under which `$` matches at the very end of the text and
    also just before one final line feed. */
module EmailPattern {

  /** `\s`: space, tab, line feed, vertical tab, form feed, carriage return. */
  predicate IsSpace(c: char) {
    c == ' ' || c == '\t' || c == '\n' || c == 11 as char || c == 12 as char || c == '\r'
  }

  /** A character of `[^<>()\[\]\\.,;:\s@"]`. */
  predicate IsAtomChar(c: char) {
    c !in "<>()[]\\.,;:@\"" && !IsSpace(c)
  }

  predicate IsDigit(c: char) { '0' <= c <= '9' }

  predicate IsAlpha(c: char) { 'a' <= c <= 'z' || 'A' <= c <= 'Z' }

  /** A character of `[a-zA-Z\-0-9]`. */
  predicate IsLabelChar(c: char) { IsAlpha(c) || IsDigit(c) || c == '-' }

  /** The pieces of s between occurrences of sep (at least one piece). Split(s, sep)
      joined with sep gives s back. */
  function Split(s: string, sep: char): (parts: seq<string>)
    ensures |parts| >= 1
  {
    if s == [] then [""]
    else
      var rest := Split(s[1..], sep);
      if s[0] == sep then [""] + rest else [[s[0]] + rest[0]] + rest[1..]
  }

  /** `atom(\.atom)*`. Since '.' is not an atom character, the atoms are exactly the
      pieces between the dots, and every one of them must be non-empty. */
  predicate IsDotAtom(s: string) {
    var parts := Split(s, '.');
    forall i | 0 <= i < |parts| ::
      |parts[i]| > 0 && forall j | 0 <= j < |parts[i]| :: IsAtomChar(parts[i][j])
  }

  /** `".+"`: a quote, one or more characters (`.` excludes only the newline), a quote.
      The inner characters may themselves be quotes or '@'. */
  predicate IsQuoted(s: string) {
    |s| >= 3 && s[0] == '"' && s[|s| - 1] == '"' && forall i | 1 <= i < |s| - 1 :: s[i] != '\n'
  }

  predicate IsLocalPart(s: string) { IsDotAtom(s) || IsQuoted(s) }

  /** `\[[0-9]{1,3}\.[0-9]{1,3}\.[0-9]{1,3}\.[0-9]{1,3}]`: four groups of one to three
      digits; no check that a group is at most 255. */
  predicate IsAddressLiteral(s: string) {
    && |s| >= 2 && s[0] == '[' && s[|s| - 1] == ']'
    && var parts := Split(s[1..|s| - 1], '.');
       && |parts| == 4
       && forall i | 0 <= i < 4 ::
            1 <= |parts[i]| <= 3 && forall j | 0 <= j < |parts[i]| :: IsDigit(parts[i][j])
  }

  /** `([a-zA-Z\-0-9]+\.)+[a-zA-Z]{2,}`: one or more non-empty labels each ending in a
      dot, then a top-level label of two or more letters. */
  predicate IsHostName(s: string) {
    var parts := Split(s, '.');
    && |parts| >= 2
    && (forall i | 0 <= i < |parts| - 1 ::
          |parts[i]| > 0 && forall j | 0 <= j < |parts[i]| :: IsLabelChar(parts[i][j]))
    && var top := parts[|parts| - 1];
       |top| >= 2 && forall j | 0 <= j < |top| :: IsAlpha(top[j])
  }

  predicate IsDomain(s: string) { IsAddressLiteral(s) || IsHostName(s) }

  /** The pattern between `^` and `$` covering the whole text: some '@' divides
      it into a local part and a domain (the engine backtracks over every '@',
      so any one will do). */
  predicate MatchesExactly(s: string) {
    exists k | 0 <= k < |s| :: s[k] == '@' && IsLocalPart(s[..k]) && IsDomain(s[k + 1..])
  }

  /** The whole anchored pattern as a PCRE engine applies it: `$` matches at the
      end of the text and also just before a final line feed. */
  predicate Matches(s: string) {
    || MatchesExactly(s)
    || (|s| > 0 && s[|s| - 1] == '\n' && MatchesExactly(s[..|s| - 1]))
  }

  /** A text without the separator is a single piece. */
  lemma {:induction false} SplitWithoutSeparator(s: string, sep: char)
    requires forall i | 0 <= i < |s| :: s[i] != sep
    ensures Split(s, sep) == [s]
  {
    if s != [] {
      SplitWithoutSeparator(s[1..], sep);
      assert [s[0]] + s[1..] == s;
    }
  }

  /** The first separator ends the first piece. */
  lemma {:induction false} SplitAtSeparator(a: string, sep: char, b: string)
    requires forall i | 0 <= i < |a| :: a[i] != sep
    ensures Split(a + [sep] + b, sep) == [a] + Split(b, sep)
  {
    if a == [] {
      assert a + [sep] + b == [sep] + b;
      assert ([sep] + b)[1..] == b;
    } else {
      var s := a + [sep] + b;
      assert s[0] == a[0] && s[1..] == a[1..] + [sep] + b;
      SplitAtSeparator(a[1..], sep, b);
      assert [a[0]] + a[1..] == a;
    }
  }

  /** A single atom is a dot-atom. */
  lemma AtomIsDotAtom(s: string)
    requires |s| > 0 && forall i | 0 <= i < |s| :: IsAtomChar(s[i])
    ensures IsDotAtom(s)
  {
    SplitWithoutSeparator(s, '.');
  }

  /** One label, a dot and a top-level label of two or more letters form a host name. */
  lemma TwoLabelsAreHostName(first: string, top: string)
    requires |first| > 0 && forall i | 0 <= i < |first| :: IsLabelChar(first[i])
    requires |top| >= 2 && forall i | 0 <= i < |top| :: IsAlpha(top[i])
    ensures IsHostName(first + ['.'] + top)
  {
    SplitWithoutSeparator(top, '.');
    SplitAtSeparator(first, '.', top);
  }

  predicate IsDigitGroup(g: string) {
    1 <= |g| <= 3 && forall i | 0 <= i < |g| :: IsDigit(g[i])
  }

  /** Four digit groups between brackets, separated by dots, form an address literal. */
  lemma GroupsAreAddressLiteral(a: string, b: string, c: string, d: string)
    requires IsDigitGroup(a) && IsDigitGroup(b) && IsDigitGroup(c) && IsDigitGroup(d)
    ensures IsAddressLiteral("[" + a + "." + b + "." + c + "." + d + "]")
  {
    var s := "[" + a + "." + b + "." + c + "." + d + "]";
    var inner := a + ['.'] + (b + ['.'] + (c + ['.'] + d));
    assert s == ['['] + inner + [']'];
    assert s[1..|s| - 1] == inner;
    DigitGroupHasNoDot(a);
    DigitGroupHasNoDot(b);
    DigitGroupHasNoDot(c);
    DigitGroupHasNoDot(d);
    SplitWithoutSeparator(d, '.');
    SplitAtSeparator(c, '.', d);
    SplitAtSeparator(b, '.', c + ['.'] + d);
    SplitAtSeparator(a, '.', b + ['.'] + (c + ['.'] + d));
    var parts := Split(inner, '.');
    assert parts == [a, b, c, d];
    forall i | 0 <= i < 4
      ensures 1 <= |parts[i]| <= 3 && forall j | 0 <= j < |parts[i]| :: IsDigit(parts[i][j])
    {
      assert IsDigitGroup(parts[i]);
    }
  }

  lemma DigitGroupHasNoDot(g: string)
    requires IsDigitGroup(g)
    ensures forall i | 0 <= i < |g| :: g[i] != '.'
  {
  }

  /** Any local part, an '@' and any domain make an address the pattern accepts. */
  lemma JoinedAddressMatches(l: string, d: string)
    requires IsLocalPart(l) && IsDomain(d)
    ensures MatchesExactly(l + "@" + d)
    ensures Matches(l + "@" + d)
  {
    var s := l + "@" + d;
    assert s[|l|] == '@' && s[..|l|] == l && s[|l| + 1..] == d;
  }

  lemma AcceptsPlainAddress()
    ensures MatchesExactly("user@example.com")
    ensures Matches("user@example.com")
  {
    var s := "user@example.com";
    assert s[4] == '@' && s[..4] == "user" && s[5..] == "example" + ['.'] + "com";
    AtomIsDotAtom("user");
    TwoLabelsAreHostName("example", "com");
  }

  lemma AcceptsAddressLiteral()
    ensures MatchesExactly("user@[192.168.0.1]")
    ensures Matches("user@[192.168.0.1]")
  {
    var s := "user@[192.168.0.1]";
    assert s[4] == '@' && s[..4] == "user" && s[5..] == "[" + "192" + "." + "168" + "." + "0" + "." + "1" + "]";
    AtomIsDotAtom("user");
    GroupsAreAddressLiteral("192", "168", "0", "1");
  }

  /** The literal's groups are not range-checked. */
  lemma AcceptsOutOfRangeQuad()
    ensures MatchesExactly("a@[999.999.999.999]")
    ensures Matches("a@[999.999.999.999]")
  {
    var s := "a@[999.999.999.999]";
    assert s[1] == '@' && s[..1] == "a" && s[2..] == "[" + "999" + "." + "999" + "." + "999" + "." + "999" + "]";
    AtomIsDotAtom("a");
    GroupsAreAddressLiteral("999", "999", "999", "999");
  }

  /** A quoted local part may contain '@' and quotes. */
  lemma AcceptsQuotedLocalPart()
    ensures MatchesExactly("\"a@b\"@example.com")
    ensures Matches("\"a@b\"@example.com")
  {
    var s := "\"a@b\"@example.com";
    assert s[5] == '@' && s[..5] == "\"a@b\"" && s[6..] == "example" + ['.'] + "com";
    assert IsQuoted(s[..5]);
    TwoLabelsAreHostName("example", "com");
  }

  lemma RejectsMissingAt()
    ensures !Matches("not-an-email")
  {
    var s := "not-an-email";
    assert forall k | 0 <= k < |s| :: s[k] != '@';
  }

  /** A one-letter top-level label is too short. */
  lemma RejectsShortTopLevelLabel()
    ensures !Matches("user@example.c")
  {
    var s := "user@example.c";
    ShortTopLevelLabelNotExact();
    assert s[|s| - 1] == 'c';
  }

  lemma ShortTopLevelLabelNotExact()
    ensures !MatchesExactly("user@example.c")
  {
    var s := "user@example.c";
    var d := "example.c";
    assert forall k | 0 <= k < |s| && k != 4 :: s[k] != '@';
    assert s[5..] == d == "example" + ['.'] + "c";
    SplitWithoutSeparator("c", '.');
    SplitAtSeparator("example", '.', "c");
    assert !IsHostName(d);
    assert d[0] != '[';
    assert !IsDomain(s[5..]);
  }

  /** `$` also matches before a final line feed, so one trailing newline is accepted. */
  lemma AcceptsTrailingNewline()
    ensures Matches("user@example.com\n")
  {
    var s := "user@example.com\n";
    AcceptsPlainAddress();
    assert s[..|s| - 1] == "user@example.com";
  }

  /** Every character of the text other than the separator lies in some piece:
      piece p, position j. */
  lemma {:induction false} SplitKeepsChars(s: string, sep: char, i: nat) returns (p: nat, j: nat)
    requires i < |s| && s[i] != sep
    ensures p < |Split(s, sep)| && j < |Split(s, sep)[p]| && Split(s, sep)[p][j] == s[i]
  {
    var parts := Split(s, sep);
    var rest := Split(s[1..], sep);
    if i == 0 {
      p, j := 0, 0;
    } else {
      var q, r := SplitKeepsChars(s[1..], sep, i - 1);
      if s[0] == sep {
        p, j := q + 1, r;
        assert parts[p] == rest[q];
      } else if q == 0 {
        p, j := 0, r + 1;
        assert parts[0] == [s[0]] + rest[0];
      } else {
        p, j := q, r;
        assert parts[p] == rest[q];
      }
    }
  }

  /** No domain contains '@': host names are made of letters, digits, '-' and
      '.', address literals of digits, '.' and brackets. */
  lemma DomainHasNoAt(t: string)
    requires IsDomain(t)
    ensures forall i | 0 <= i < |t| :: t[i] != '@'
  {
    forall i | 0 <= i < |t| ensures t[i] != '@' {
      if t[i] != '.' {
        if IsHostName(t) {
          var parts := Split(t, '.');
          var p, j := SplitKeepsChars(t, '.', i);
          if p < |parts| - 1 {
            assert IsLabelChar(parts[p][j]);
          } else {
            assert IsAlpha(parts[p][j]);
          }
        } else if 0 < i < |t| - 1 {
          var inner := t[1..|t| - 1];
          assert inner[i - 1] == t[i];
          var parts := Split(inner, '.');
          var p, j := SplitKeepsChars(inner, '.', i - 1);
          assert IsDigit(parts[p][j]);
        }
      }
    }
  }

  /** An address divides at its last '@': the domain never contains one, so
      only the local part (when quoted) can. */
  lemma DomainFollowsLastAt(s: string, k: nat)
    requires k < |s| && s[k] == '@' && IsLocalPart(s[..k]) && IsDomain(s[k + 1..])
    ensures forall i | k < i < |s| :: s[i] != '@'
  {
    var t := s[k + 1..];
    DomainHasNoAt(t);
    assert forall i | k < i < |s| :: s[i] == t[i - k - 1];
  }

  /** A dot-atom contains no '@', so an address with an unquoted local part has
      exactly one '@'. */
  lemma DotAtomHasNoAt(s: string)
    requires IsDotAtom(s)
    ensures forall i | 0 <= i < |s| :: s[i] != '@'
  {
    forall i | 0 <= i < |s| ensures s[i] != '@' {
      if s[i] != '.' {
        var parts := Split(s, '.');
        var p, j := SplitKeepsChars(s, '.', i);
        assert IsAtomChar(parts[p][j]);
      }
    }
  }
}
