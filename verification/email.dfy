/** The email format check of registration, the regular expression
    `^[^\s@]+@[^\s@]+\.[^\s@]+$`, as a scanner over the string and as the
    shape the expression describes, with a proof that the two agree. */
module Email {
  import opened Text

  /** A character of the class `[^\s@]`. */
  predicate PlainChar(c: char)
  {
    !IsSpace(c) && c != '@'
  }

  /** Every character is in `[^\s@]`. */
  predicate Plain(s: string)
  {
    forall k | 0 <= k < |s| :: PlainChar(s[k])
  }

  /** `e` splits at the `@` at `i` and the `.` at `j` into three non-empty
      runs of `[^\s@]`: one way for the expression to match. */
  predicate Shape(e: string, i: int, j: int)
  {
    && 0 < i && i + 1 < j && j + 1 < |e|
    && e[i] == '@' && e[j] == '.'
    && Plain(e[..i]) && Plain(e[i + 1..j]) && Plain(e[j + 1..])
  }

  /** The whole string matches the expression. */
  ghost predicate RegexMatch(e: string)
  {
    exists i, j :: Shape(e, i, j)
  }

  /** The domain has a `.` with at least one character on each side. */
  predicate DotInside(d: string)
  {
    exists k | 1 <= k < |d| - 1 :: d[k] == '.'
  }

  /** The check as a single scan: split at the first `@`, then both sides
      must be plain and the domain must have an inner `.`. */
  predicate EmailMatches(e: string)
  {
    var i := IndexOf(e, '@');
    0 < i < |e| && Plain(e[..i]) && Plain(e[i + 1..]) && DotInside(e[i + 1..])
  }

  /** A scan that accepts splits the string as the expression does. */
  lemma ScanImpliesRegex(e: string)
    requires EmailMatches(e)
    ensures RegexMatch(e)
  {
    var i := IndexOf(e, '@');
    var d := e[i + 1..];
    var k :| 1 <= k < |d| - 1 && d[k] == '.';
    var j := i + 1 + k;
    assert e[i + 1..j] == d[..k];
    assert e[j + 1..] == d[k + 1..];
    assert Plain(d[..k]) && Plain(d[k + 1..]);
    assert Shape(e, i, j);
  }

  /** A split the expression accepts is found by the scan: its `@` is the
      first one, and its `.` lies strictly inside the domain. */
  lemma RegexImpliesScan(e: string, i: int, j: int)
    requires Shape(e, i, j)
    ensures EmailMatches(e)
  {
    assert IndexOf(e, '@') == i;
    var d := e[i + 1..];
    assert d == e[i + 1..j] + ['.'] + e[j + 1..];
    assert Plain(d);
    assert d[j - i - 1] == '.';
    assert DotInside(d);
  }

  /** The scanner accepts exactly the strings the expression matches. */
  lemma EmailMatchesIffRegex(e: string)
    ensures EmailMatches(e) <==> RegexMatch(e)
  {
    if EmailMatches(e) {
      ScanImpliesRegex(e);
    }
    if RegexMatch(e) {
      var i, j :| Shape(e, i, j);
      RegexImpliesScan(e, i, j);
    }
  }

  /** Any three non-empty plain parts joined as `local@host.tld` match. */
  lemma JoinedPartsMatch(local: string, host: string, tld: string)
    requires |local| > 0 && |host| > 0 && |tld| > 0
    requires Plain(local) && Plain(host) && Plain(tld)
    ensures EmailMatches(local + "@" + host + "." + tld)
  {
    var e := local + "@" + host + "." + tld;
    var i := |local|;
    var j := |local| + 1 + |host|;
    assert e[..i] == local;
    assert e[i + 1..j] == host;
    assert e[j + 1..] == tld;
    assert Shape(e, i, j);
    RegexImpliesScan(e, i, j);
  }

  /** "a@b.c" is a well-formed address. */
  lemma AcceptsShortAddress()
    ensures EmailMatches("a@b.c") && RegexMatch("a@b.c")
  {
    var e := "a@b.c";
    assert e[..1] == "a" && e[2..3] == "b" && e[4..] == "c";
    assert Shape(e, 1, 3);
    RegexImpliesScan(e, 1, 3);
  }

  /** "a@b" lacks the domain's dot and is rejected. */
  lemma RejectsMissingDot()
    ensures !EmailMatches("a@b") && !RegexMatch("a@b")
  {
    assert IndexOf("a@b", '@') == 1;
    assert "a@b"[2..] == "b";
    EmailMatchesIffRegex("a@b");
  }

  /** In a match, the only `@` is the one the match splits at. */
  lemma OnlyAtIsSplit(e: string, i: int, j: int, x: int)
    requires Shape(e, i, j) && 0 <= x < |e| && e[x] == '@'
    ensures x == i
  {
  }

  /** A second `@` anywhere makes the address invalid. */
  lemma RejectsSecondAt(local: string, rest: string)
    requires '@' in rest
    ensures !RegexMatch(local + "@" + rest)
  {
    var e := local + "@" + rest;
    if RegexMatch(e) {
      var i, j :| Shape(e, i, j);
      var k :| 0 <= k < |rest| && rest[k] == '@';
      assert e[|local|] == '@';
      assert e[|local| + 1 + k] == '@';
      OnlyAtIsSplit(e, i, j, |local|);
      OnlyAtIsSplit(e, i, j, |local| + 1 + k);
    }
  }
}
