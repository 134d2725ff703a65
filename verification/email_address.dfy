/** The address check of the e-mail composer: the regular expression
    ^[^\s@]+@[^\s@]+\.[^\s@]+$ tested against the "to" field.

    The pattern is modelled twice: once as the finite automaton a regular
    expression engine runs (Step, Accepts, ValidateEmail), and once as a
    declarative description of the strings it matches (IsLocalPart, IsDomain,
    IsAddress).  The lemmas below prove that the two agree on every string. */
module EmailAddress {

  /** JavaScript's \s: the ECMAScript WhiteSpace and LineTerminator code
      points (tab, line tabulation, form feed, space, no-break space, the
      other Unicode space separators, zero width no-break space, line feed,
      carriage return, line and paragraph separators). */
  predicate IsWhitespace(c: char) {
    c == '\t' || c == '\n' || c == '\U{000B}' || c == '\U{000C}' || c == '\r' ||
    c == ' ' || c == '\U{00A0}' || c == '\U{1680}' ||
    ('\U{2000}' <= c <= '\U{200A}') ||
    c == '\U{2028}' || c == '\U{2029}' || c == '\U{202F}' || c == '\U{205F}' ||
    c == '\U{3000}' || c == '\U{FEFF}'
  }

  /** The character class [^\s@]. */
  predicate IsAddressChar(c: char) {
    !IsWhitespace(c) && c != '@'
  }

  ghost predicate AllAddressChars(s: string) {
    forall k :: 0 <= k < |s| ==> IsAddressChar(s[k])
  }

  /** The part before the '@': [^\s@]+ */
  ghost predicate IsLocalPart(l: string) {
    |l| > 0 && AllAddressChars(l)
  }

  /** The part after the '@': [^\s@]+\.[^\s@]+, that is, characters of the
      class with a '.' that is neither the first nor the last one. */
  ghost predicate IsDomain(d: string) {
    AllAddressChars(d) && exists k :: 0 < k < |d| - 1 && d[k] == '.'
  }

  /** A whole string the pattern matches: a local part, an '@', a domain. */
  ghost predicate IsAddress(s: string) {
    exists i :: 0 <= i < |s| && s[i] == '@' && IsLocalPart(s[..i]) && IsDomain(s[i + 1..])
  }

  /** States of the automaton for the pattern. Local: at least one character
      of the local part read; AtSign: the '@' read; Domain: domain characters
      read, none of them a '.' that could separate the two domain pieces;
      Dot: such a '.' was the last character read; Done: the pattern is
      complete, and stays so while address characters follow. */
  datatype State = Start | Local | AtSign | Domain | Dot | Done | Dead

  function Step(q: State, c: char): State {
    if !IsAddressChar(c) then
      (if q == Local && c == '@' then AtSign else Dead)
    else
      match q
      case Start => Local
      case Local => Local
      case AtSign => Domain
      case Domain => if c == '.' then Dot else Domain
      case Dot => Done
      case Done => Done
      case Dead => Dead
  }

  /** Whether the automaton, started in q, ends in its accepting state after
      reading s (the pattern is anchored at both ends). */
  function Accepts(q: State, s: string): bool
    decreases |s|
  {
    if s == [] then q == Done else Accepts(Step(q, s[0]), s[1..])
  }

  /** validateEmail: regex.test(email). */
  function ValidateEmail(email: string): (ok: bool)
    ensures ok <==> IsAddress(email)
  {
    FromStart(email);
    Accepts(Start, email)
  }

  // Each lemma below gives the language accepted from one state.

  lemma {:induction false} FromDead(s: string)
    ensures !Accepts(Dead, s)
  {
    if s != [] {
      FromDead(s[1..]);
    }
  }

  lemma AllAddressCharsCons(s: string)
    requires s != []
    ensures AllAddressChars(s) <==> IsAddressChar(s[0]) && AllAddressChars(s[1..])
  {
    if IsAddressChar(s[0]) && AllAddressChars(s[1..]) {
      forall k | 0 <= k < |s| ensures IsAddressChar(s[k]) {
        if k > 0 {
          assert s[k] == s[1..][k - 1];
        }
      }
    }
  }

  lemma {:induction false} FromDone(s: string)
    ensures Accepts(Done, s) <==> AllAddressChars(s)
  {
    if s != [] {
      AllAddressCharsCons(s);
      if IsAddressChar(s[0]) {
        FromDone(s[1..]);
      } else {
        FromDead(s[1..]);
      }
    }
  }

  lemma {:induction false} FromDot(s: string)
    ensures Accepts(Dot, s) <==> |s| > 0 && AllAddressChars(s)
  {
    if s != [] {
      AllAddressCharsCons(s);
      if IsAddressChar(s[0]) {
        FromDone(s[1..]);
      } else {
        FromDead(s[1..]);
      }
    }
  }

  lemma {:induction false} FromDomain(s: string)
    ensures Accepts(Domain, s) <==>
      AllAddressChars(s) && exists k :: 0 <= k < |s| - 1 && s[k] == '.'
  {
    if s != [] {
      AllAddressCharsCons(s);
      var r := s[1..];
      if !IsAddressChar(s[0]) {
        FromDead(r);
      } else if s[0] == '.' {
        FromDot(r);
        if |r| > 0 {
          assert 0 < |s| - 1 && s[0] == '.';
        }
      } else {
        FromDomain(r);
        if exists k :: 0 <= k < |s| - 1 && s[k] == '.' {
          var k :| 0 <= k < |s| - 1 && s[k] == '.';
          assert r[k - 1] == '.';
        }
        if exists k :: 0 <= k < |r| - 1 && r[k] == '.' {
          var k :| 0 <= k < |r| - 1 && r[k] == '.';
          assert s[k + 1] == '.';
        }
      }
    }
  }

  lemma {:induction false} FromAtSign(s: string)
    ensures Accepts(AtSign, s) <==> IsDomain(s)
  {
    if s != [] {
      AllAddressCharsCons(s);
      var r := s[1..];
      if !IsAddressChar(s[0]) {
        FromDead(r);
      } else {
        FromDomain(r);
        if exists k :: 0 < k < |s| - 1 && s[k] == '.' {
          var k :| 0 < k < |s| - 1 && s[k] == '.';
          assert r[k - 1] == '.';
        }
        if exists k :: 0 <= k < |r| - 1 && r[k] == '.' {
          var k :| 0 <= k < |r| - 1 && r[k] == '.';
          assert s[k + 1] == '.';
        }
      }
    }
  }

  /** The string splits at an '@' at index i: address characters before
      it, a domain after it. */
  ghost predicate AtSplit(s: string, i: int) {
    0 <= i < |s| && s[i] == '@' && AllAddressChars(s[..i]) && IsDomain(s[i + 1..])
  }

  /** What may follow once the local part has begun: more local characters,
      then the '@' and a domain. */
  ghost predicate IsLocalTail(s: string) {
    exists i :: AtSplit(s, i)
  }

  /** Dropping a leading address character moves the split one place left. */
  lemma AtSplitShift(s: string, i: int)
    requires s != [] && IsAddressChar(s[0]) && 0 < i
    ensures AtSplit(s, i) <==> AtSplit(s[1..], i - 1)
  {
    if 0 < i < |s| {
      AllAddressCharsCons(s[..i]);
      assert s[..i][1..] == s[1..][..i - 1];
      assert s[i + 1..] == s[1..][i - 1 + 1..];
    }
  }

  /** A split at index 0 needs an '@' in front; a later split needs no '@' in front. */
  lemma AtSplitFront(s: string, i: int)
    requires AtSplit(s, i)
    ensures i == 0 <==> s[0] == '@'
    ensures i > 0 ==> IsAddressChar(s[0])
  {
    if i > 0 {
      assert s[..i][0] == s[0];
    }
  }

  lemma {:induction false} FromLocal(s: string)
    ensures Accepts(Local, s) <==> IsLocalTail(s)
  {
    if s != [] {
      var r := s[1..];
      if IsLocalTail(s) {
        var i :| AtSplit(s, i);
        AtSplitFront(s, i);
      }
      if s[0] == '@' {
        FromAtSign(r);
        if IsDomain(r) {
          assert s[..0] == [] && s[0 + 1..] == r;
          assert AtSplit(s, 0);
        }
      } else if !IsAddressChar(s[0]) {
        FromDead(r);
      } else {
        FromLocal(r);
        if IsLocalTail(s) {
          var i :| AtSplit(s, i);
          AtSplitShift(s, i);
        }
        if IsLocalTail(r) {
          var j :| AtSplit(r, j);
          AtSplitShift(s, j + 1);
        }
      }
    }
  }

  lemma {:induction false} FromStart(s: string)
    ensures Accepts(Start, s) <==> IsAddress(s)
  {
    if s != [] {
      var r := s[1..];
      if IsAddress(s) {
        var i :| 0 <= i < |s| && s[i] == '@' && IsLocalPart(s[..i]) && IsDomain(s[i + 1..]);
        assert AtSplit(s, i);
        AtSplitFront(s, i);
        AtSplitShift(s, i);
        assert IsLocalTail(r);
      }
      if !IsAddressChar(s[0]) {
        FromDead(r);
      } else {
        FromLocal(r);
        if IsLocalTail(r) {
          var j :| AtSplit(r, j);
          AtSplitShift(s, j + 1);
          assert s[..j + 1][0] == s[0];
        }
      }
    }
  }

  // Consequences of the characterisation.

  /** Around a run of address characters on each side, index i is the
      only place an '@' can be. */
  lemma OnlyAtSign(s: string, i: int)
    requires 0 <= i < |s| && AllAddressChars(s[..i]) && AllAddressChars(s[i + 1..])
    ensures forall j :: 0 <= j < |s| && j != i ==> IsAddressChar(s[j])
  {
    forall j | 0 <= j < |s| && j != i ensures IsAddressChar(s[j]) {
      if j < i {
        assert s[j] == s[..i][j];
      } else {
        assert s[j] == s[i + 1..][j - i - 1];
      }
    }
  }

  /** Splitting anywhere at an '@': the whole is accepted exactly when the
      part before is a local part and the part after is a domain. */
  lemma SplitAtSign(l: string, d: string)
    ensures ValidateEmail(l + "@" + d) <==> IsLocalPart(l) && IsDomain(d)
  {
    var s := l + "@" + d;
    assert s[..|l|] == l && s[|l|] == '@' && s[|l| + 1..] == d;
    if IsAddress(s) {
      var i :| 0 <= i < |s| && s[i] == '@' && IsLocalPart(s[..i]) && IsDomain(s[i + 1..]);
      OnlyAtSign(s, i);
      assert i == |l|;
    }
  }

  /** Every accepted address holds exactly one '@', no whitespace, and at
      least five characters ("a@b.c"); in particular "" is rejected. */
  lemma AcceptedShape(s: string)
    requires ValidateEmail(s)
    ensures multiset(s)['@'] == 1
    ensures forall k :: 0 <= k < |s| ==> !IsWhitespace(s[k])
    ensures |s| >= 5
  {
    var i :| 0 <= i < |s| && s[i] == '@' && IsLocalPart(s[..i]) && IsDomain(s[i + 1..]);
    var l, d := s[..i], s[i + 1..];
    assert s == l + [s[i]] + d;
    assert '@' !in l && '@' !in d;
    assert multiset(s) == multiset(l) + multiset{'@'} + multiset(d);
    forall k | 0 <= k < |s| ensures !IsWhitespace(s[k]) {
      if k < i {
        assert s[k] == l[k];
      } else if k > i {
        assert s[k] == d[k - i - 1];
      }
    }
  }

  /** The pattern read piece by piece: any three non-empty runs of address
      characters joined as a@b.c are accepted. */
  lemma PatternPieces(a: string, b: string, c: string)
    requires IsLocalPart(a) && IsLocalPart(b) && IsLocalPart(c)
    ensures ValidateEmail(a + "@" + b + "." + c)
  {
    var d := b + "." + c;
    assert d[|b|] == '.';
    forall k | 0 <= k < |d| ensures IsAddressChar(d[k]) {
      if k < |b| {
        assert d[k] == b[k];
      } else if k > |b| {
        assert d[k] == c[k - |b| - 1];
      }
    }
    SplitAtSign(a, d);
    assert a + "@" + b + "." + c == a + "@" + d;
  }

  /** Sample inputs the pattern accepts. */
  lemma AcceptedExamples()
    ensures ValidateEmail("ana@exemplo.com")
    ensures ValidateEmail("a.b@c.d.e")
  {
    PatternPieces("ana", "exemplo", "com");
    assert "ana" + "@" + "exemplo" + "." + "com" == "ana@exemplo.com";
    PatternPieces("a.b", "c.d", "e");
    assert "a.b" + "@" + "c.d" + "." + "e" == "a.b@c.d.e";
  }
}
