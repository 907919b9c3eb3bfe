/**
 The e-mail shape check of sign-up, the regular expression
 `^[^\s@]+@[^\s@]+\.[^\s@]+$`. `MatchesRegex` is the language of that
 expression written as a split of the string; `IsEmail` is the executable
 check, phrased as four plain conditions; `IsEmailMatchesRegex` proves that
 the two accept exactly the same strings.
 */
module EmailPattern {
  import opened JsText

  /** One character of the class `[^\s@]`. */
  predicate Plain(c: char) {
    !IsSpace(c) && c != '@'
  }

  predicate AllPlain(s: string) {
    forall i | 0 <= i < |s| :: Plain(s[i])
  }

  /** `s` is `local '@' host '.' tld` with the '@' at `at` and the '.' at `dot`,
      each of the three parts non-empty and made of `[^\s@]` only. */
  predicate SplitAt(s: string, at: int, dot: int)
    requires 0 <= at < dot < |s|
  {
    && 0 < at && at + 1 < dot && dot + 1 < |s|
    && s[at] == '@' && s[dot] == '.'
    && AllPlain(s[..at]) && AllPlain(s[at + 1..dot]) && AllPlain(s[dot + 1..])
  }

  /** The language of the regular expression: some split of `s` fits it. */
  ghost predicate MatchesRegex(s: string) {
    exists at, dot | 0 <= at < dot < |s| :: SplitAt(s, at, dot)
  }

  /** The domain has a '.' that is neither its first nor its last character. */
  predicate HasInnerDot(d: string) {
    exists k | 0 < k < |d| - 1 :: d[k] == '.'
  }

  /** The check as the handler performs it: no white space, exactly one '@', a non-empty part
      before it, and a domain after it with an inner '.'. */
  predicate IsEmail(s: string): (ok: bool)
    ensures ok ==> |s| >= 5
  {
    && NoSpace(s)
    && Count(s, '@') == 1
    && var at := IndexOf(s, '@');
       0 < at < |s| && HasInnerDot(s[at + 1..])
  }

  /** The executable check accepts exactly the strings the regular expression matches. */
  lemma IsEmailMatchesRegex(s: string)
    ensures IsEmail(s) <==> MatchesRegex(s)
  {
    if IsEmail(s) {
      IsEmailSplits(s);
    }
    if MatchesRegex(s) {
      var at, dot :| 0 <= at < dot < |s| && SplitAt(s, at, dot);
      SplitPassesCheck(s, at, dot);
    }
  }

  /** Every address the check accepts splits as the regular expression demands. */
  lemma IsEmailSplits(s: string)
    requires IsEmail(s)
    ensures MatchesRegex(s)
  {
    var at := IndexOf(s, '@');
    var d := s[at + 1..];
    var k :| 0 < k < |d| - 1 && d[k] == '.';
    var dot := at + 1 + k;
    forall m | 0 <= m < |s| && m != at
      ensures Plain(s[m])
    {
      if s[m] == '@' {
        if m < at {
          CountTwoPositions(s, '@', m, at);
        } else {
          CountTwoPositions(s, '@', at, m);
        }
      }
    }
    assert AllPlain(s[..at]);
    assert AllPlain(s[at + 1..dot]);
    assert AllPlain(s[dot + 1..]);
    assert SplitAt(s, at, dot);
  }

  /** Every split the regular expression accepts passes the check. */
  lemma SplitPassesCheck(s: string, at: int, dot: int)
    requires 0 <= at < dot < |s| && SplitAt(s, at, dot)
    ensures IsEmail(s)
  {
    forall m | 0 <= m < |s| && m != at
      ensures Plain(s[m])
    {
      if m < at {
        assert s[m] == s[..at][m];
      } else if at < m < dot {
        assert s[m] == s[at + 1..dot][m - at - 1];
      } else if dot < m {
        assert s[m] == s[dot + 1..][m - dot - 1];
      }
    }
    assert NoSpace(s);
    assert s == s[..at] + s[at..];
    CountAppend(s[..at], s[at..], '@');
    CountZero(s[..at], '@');
    assert s[at..] == [s[at]] + s[at + 1..];
    CountAppend([s[at]], s[at + 1..], '@');
    CountZero(s[at + 1..], '@');
    assert Count(s, '@') == 1;
    assert s[at + 1..][dot - at - 1] == '.';
    assert HasInnerDot(s[at + 1..]);
  }

  /** Three non-empty runs of `[^\s@]` joined by '@' and '.' form an address
      the check accepts. */
  lemma JoinedAddress(local: string, host: string, tld: string)
    requires |local| > 0 && |host| > 0 && |tld| > 0
    requires AllPlain(local) && AllPlain(host) && AllPlain(tld)
    ensures IsEmail(local + "@" + host + "." + tld)
  {
    var s := local + "@" + host + "." + tld;
    var at := |local|;
    var dot := |local| + 1 + |host|;
    assert s[..at] == local;
    assert s[at + 1..dot] == host;
    assert s[dot + 1..] == tld;
    SplitPassesCheck(s, at, dot);
  }
}
