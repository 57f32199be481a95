/**
  `validateEmail`: the test of a string against the anchored pattern
  `^[^\s@]+@[^\s@]+\.[^\s@]+$`.

  `MatchesPattern` is the pattern's meaning, a split of the whole string into
  `local "@" domain "." tld` with three non-empty parts free of whitespace and
  `@`. `ValidateEmail` is a scanning checker; its contract is that it accepts
  exactly the strings the pattern matches.
 */
module Email {
  import opened Chars

  /** A character of the class `[^\s@]`. */
  predicate IsPartChar(c: char) {
    !IsSpace(c) && c != '@'
  }

  /** A match of `[^\s@]+`. */
  predicate IsPart(p: string) {
    |p| > 0 && forall i :: 0 <= i < |p| ==> IsPartChar(p[i])
  }

  /** The whole string matches `^[^\s@]+@[^\s@]+\.[^\s@]+$`. The middle part
      may itself contain dots: the engine backtracks to any dot that leaves a
      non-empty part on each side. */
  ghost predicate MatchesPattern(s: string) {
    exists local: string, host: string, tld: string ::
      && IsPart(local) && IsPart(host) && IsPart(tld)
      && s == local + "@" + host + "." + tld
  }

  /** Index `a` holds the one and only `@` of `s`. */
  predicate SoleAt(s: string, a: int) {
    && 0 <= a < |s|
    && s[a] == '@'
    && forall j :: 0 <= j < |s| && j != a ==> s[j] != '@'
  }

  /** After the `@` at `a` there is a `.` that neither directly follows the
      `@` nor ends the string. */
  predicate DotInDomain(s: string, a: int) {
    exists k :: 0 <= a + 1 < k < |s| - 1 && s[k] == '.'
  }

  /** Number of `@` characters in `s`. */
  function CountAt(s: string): nat {
    if |s| == 0 then 0 else (if s[0] == '@' then 1 else 0) + CountAt(s[1..])
  }

  lemma {:induction false} CountAtOfSole(s: string, a: int)
    requires SoleAt(s, a)
    ensures CountAt(s) == 1
  {
    if a == 0 {
      NoAtCountsZero(s[1..]);
    } else {
      assert SoleAt(s[1..], a - 1) by {
        forall j | 0 <= j < |s[1..]| && j != a - 1
          ensures s[1..][j] != '@'
        {
          assert s[1..][j] == s[j + 1];
        }
      }
      CountAtOfSole(s[1..], a - 1);
    }
  }

  lemma {:induction false} NoAtCountsZero(s: string)
    requires forall j :: 0 <= j < |s| ==> s[j] != '@'
    ensures CountAt(s) == 0
  {
    if |s| > 0 {
      assert forall j :: 0 <= j < |s[1..]| ==> s[1..][j] == s[j + 1];
      NoAtCountsZero(s[1..]);
    }
  }

  /** A match places its one `@` right after the local part and has a dot
      inside the domain. */
  lemma MatchHasShape(s: string)
    requires MatchesPattern(s)
    ensures NoSpace(s)
    ensures exists a :: 0 < a && SoleAt(s, a) && DotInDomain(s, a)
  {
    var local, host, tld :|
      && IsPart(local) && IsPart(host) && IsPart(tld)
      && s == local + "@" + host + "." + tld;
    var a := |local|;
    var k := |local| + 1 + |host|;
    forall i | 0 <= i < |s|
      ensures !IsSpace(s[i]) && (i != a ==> s[i] != '@')
    {
      if i < a {
        assert s[i] == local[i];
      } else if i == a {
        assert s[i] == '@';
      } else if i < k {
        assert s[i] == host[i - a - 1];
      } else if i == k {
        assert s[i] == '.';
      } else {
        assert s[i] == tld[i - k - 1];
      }
    }
    assert s[a] == '@' && s[k] == '.';
    assert SoleAt(s, a) && DotInDomain(s, a);
  }

  /** Conversely, the shape is enough: cutting at the `@` and at the inner dot
      gives the three parts the pattern asks for. */
  lemma ShapeMatches(s: string, a: int, k: int)
    requires NoSpace(s) && SoleAt(s, a) && 0 < a
    requires a + 1 < k < |s| - 1 && s[k] == '.'
    ensures MatchesPattern(s)
  {
    var local, host, tld := s[..a], s[a + 1..k], s[k + 1..];
    assert s == local + "@" + host + "." + tld by {
      assert s == s[..a] + [s[a]] + s[a + 1..k] + [s[k]] + s[k + 1..];
    }
    assert IsPart(local) by {
      forall i | 0 <= i < |local| ensures IsPartChar(local[i]) {
        assert local[i] == s[i];
      }
    }
    assert IsPart(host) by {
      forall i | 0 <= i < |host| ensures IsPartChar(host[i]) {
        assert host[i] == s[a + 1 + i];
      }
    }
    assert IsPart(tld) by {
      forall i | 0 <= i < |tld| ensures IsPartChar(tld[i]) {
        assert tld[i] == s[k + 1 + i];
      }
    }
  }

  /** The pattern, restated as the checks a scanner makes: no whitespace,
      exactly one `@`, something before it, and a dot strictly inside the
      domain. */
  lemma PatternIffShape(s: string)
    ensures MatchesPattern(s) <==>
      NoSpace(s) && exists a :: 0 < a && SoleAt(s, a) && DotInDomain(s, a)
  {
    if MatchesPattern(s) {
      MatchHasShape(s);
    }
    if NoSpace(s) && exists a :: 0 < a && SoleAt(s, a) && DotInDomain(s, a) {
      var a :| 0 < a && SoleAt(s, a) && DotInDomain(s, a);
      var k :| a + 1 < k < |s| - 1 && s[k] == '.';
      ShapeMatches(s, a, k);
    }
  }

  /** An accepted address has exactly one `@` and no whitespace. */
  lemma AcceptedHasOneAtNoSpace(s: string)
    requires MatchesPattern(s)
    ensures CountAt(s) == 1 && NoSpace(s)
  {
    MatchHasShape(s);
    var a :| 0 < a && SoleAt(s, a) && DotInDomain(s, a);
    CountAtOfSole(s, a);
  }

  /** A dot directly after the `@`, a dot at the very end, no dot at all,
      an empty local part, a second `@` and whitespace are each rejected. */
  lemma RejectedExamples()
    ensures !MatchesPattern("a@.b")
    ensures !MatchesPattern("a@b.")
    ensures !MatchesPattern("a@b")
    ensures !MatchesPattern("@b.c")
    ensures !MatchesPattern("a@b@c.d")
    ensures !MatchesPattern("a b@c.d")
  {
    RejectsMisplacedDot("a@.b");
    RejectsMisplacedDot("a@b.");
    RejectsMisplacedDot("a@b");
    RejectsEmptyLocal();
    RejectsTwoAts();
    RejectsSpace();
  }

  /** A leading dot in the domain is accepted as long as a later inner dot
      exists, since the middle part of the pattern may contain dots. */
  lemma AcceptedExamples()
    ensures MatchesPattern("a@b.c")
    ensures MatchesPattern("a@.b.c")
  {
    ShapeMatches("a@b.c", 1, 3);
    ShapeMatches("a@.b.c", 1, 4);
  }

  lemma RejectsMisplacedDot(s: string)
    requires s == "a@.b" || s == "a@b." || s == "a@b"
    ensures !MatchesPattern(s)
  {
    forall a | SoleAt(s, a) ensures !DotInDomain(s, a) {
      assert a == 1;
    }
    PatternIffShape(s);
  }

  lemma RejectsEmptyLocal()
    ensures !MatchesPattern("@b.c")
  {
    var s := "@b.c";
    assert s[0] == '@';
    forall a | SoleAt(s, a) ensures a == 0 {}
    PatternIffShape(s);
  }

  lemma RejectsTwoAts()
    ensures !MatchesPattern("a@b@c.d")
  {
    var s := "a@b@c.d";
    forall a | 0 <= a < |s| && s[a] == '@' ensures !SoleAt(s, a) {
      if a != 1 {
        assert s[1] == '@';
      } else {
        assert s[3] == '@';
      }
    }
    PatternIffShape(s);
  }

  lemma RejectsSpace()
    ensures !MatchesPattern("a b@c.d")
  {
    var s := "a b@c.d";
    assert IsSpace(s[1]);
    PatternIffShape(s);
  }

  /** The executable checker: one pass for whitespace and the position of the
      single `@`, then a search for a dot strictly inside the domain. */
  method ValidateEmail(s: string) returns (ok: bool)
    ensures ok <==> MatchesPattern(s)
  {
    PatternIffShape(s);
    var at := -1;
    var i := 0;
    while i < |s|
      invariant 0 <= i <= |s|
      invariant -1 <= at < i
      invariant forall j :: 0 <= j < i ==> !IsSpace(s[j])
      invariant at == -1 ==> forall j :: 0 <= j < i ==> s[j] != '@'
      invariant at >= 0 ==> s[at] == '@' && forall j :: 0 <= j < i && j != at ==> s[j] != '@'
    {
      if IsSpace(s[i]) {
        assert !NoSpace(s);
        return false;
      }
      if s[i] == '@' {
        if at >= 0 {
          assert !SoleAt(s, at) && !SoleAt(s, i);
          return false;
        }
        at := i;
      }
      i := i + 1;
    }
    if at == -1 {
      assert forall a :: !SoleAt(s, a);
      return false;
    }
    assert SoleAt(s, at);
    if at == 0 {
      assert forall a :: SoleAt(s, a) ==> a == 0;
      return false;
    }
    var k := at + 2;
    while k < |s| - 1
      invariant at + 2 <= k
      invariant forall j :: at + 2 <= j < k && j < |s| - 1 ==> s[j] != '.'
    {
      if s[k] == '.' {
        assert DotInDomain(s, at);
        return true;
      }
      k := k + 1;
    }
    assert forall a :: SoleAt(s, a) ==> a == at;
    return false;
  }
}
