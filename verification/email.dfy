/** The address check of the contact form, isValidEmail: a test of the whole
    string against the regular expression ^[^\s@]+@[^\s@]+\.[^\s@]+$ .
    The expression's language is written out as a predicate over positions,
    the check itself as a deterministic automaton, and the two are proved to
    agree on every string. */
module Email {
  import opened Text

  /** A character of the class [^\s@]. */
  predicate Plain(c: char) {
    !IsWhitespace(c) && c != '@'
  }

  /** Every character of s in positions lo up to hi is in [^\s@]. */
  predicate PlainBetween(s: string, lo: int, hi: int) {
    forall k :: 0 <= lo <= k < hi <= |s| ==> Plain(s[k])
  }

  /** The suffix s[k..] matches [^\s@]{n,}\.[^\s@]+ : at least n plain
      characters, a dot, and at least one plain character. */
  ghost predicate HostFrom(s: string, k: int, n: nat) {
    exists j :: 0 <= k && k + n <= j < |s| - 1 && PlainBetween(s, k, j) && s[j] == '.' && PlainBetween(s, j + 1, |s|)
  }

  /** The suffix s[k..] matches [^\s@]{n,}@[^\s@]+\.[^\s@]+ . */
  ghost predicate AddressFrom(s: string, k: int, n: nat) {
    exists i :: 0 <= k && k + n <= i < |s| && PlainBetween(s, k, i) && s[i] == '@' && HostFrom(s, i + 1, 1)
  }

  /** The whole of s matches ^[^\s@]+@[^\s@]+\.[^\s@]+$ . */
  ghost predicate MatchesEmailRegex(s: string) {
    AddressFrom(s, 0, 1)
  }

  /** Where the automaton stands after reading a prefix. */
  datatype Phase =
    | Start      // nothing read yet
    | InLocal    // one or more plain characters before the '@'
    | AtSign     // just read the '@'
    | InDomain   // domain started, no dot usable as the separator yet
    | AtDot      // just read a dot that can separate domain and suffix
    | InSuffix   // one or more plain characters after such a dot: accepting
    | Dead       // no continuation can match

  function Step(q: Phase, c: char): Phase {
    match q
    case Start => if Plain(c) then InLocal else Dead
    case InLocal => if c == '@' then AtSign else if Plain(c) then InLocal else Dead
    case AtSign => if Plain(c) then InDomain else Dead
    case InDomain => if c == '.' then AtDot else if Plain(c) then InDomain else Dead
    case AtDot => if Plain(c) then InSuffix else Dead
    case InSuffix => if Plain(c) then InSuffix else Dead
    case Dead => Dead
  }

  /** The suffixes s[k..] that lead from phase q to acceptance. */
  ghost predicate Lang(q: Phase, s: string, k: int) {
    match q
    case Start => AddressFrom(s, k, 1)
    case InLocal => AddressFrom(s, k, 0)
    case AtSign => HostFrom(s, k, 1)
    case InDomain => HostFrom(s, k, 0)
    case AtDot => 0 <= k < |s| && PlainBetween(s, k, |s|)
    case InSuffix => 0 <= k <= |s| && PlainBetween(s, k, |s|)
    case Dead => false
  }

  lemma LangAtEnd(q: Phase, s: string)
    ensures Lang(q, s, |s|) <==> q == InSuffix
  {
  }

  lemma StepStart(s: string, k: int)
    requires 0 <= k < |s|
    ensures AddressFrom(s, k, 1) <==> Lang(Step(Start, s[k]), s, k + 1)
  {
    if Plain(s[k]) {
      if AddressFrom(s, k, 1) {
        var i :| k + 1 <= i < |s| && PlainBetween(s, k, i) && s[i] == '@' && HostFrom(s, i + 1, 1);
        assert PlainBetween(s, k + 1, i);
      }
      if AddressFrom(s, k + 1, 0) {
        var i :| k + 1 <= i < |s| && PlainBetween(s, k + 1, i) && s[i] == '@' && HostFrom(s, i + 1, 1);
        assert PlainBetween(s, k, i);
      }
    } else {
      forall i | k + 1 <= i < |s| ensures !PlainBetween(s, k, i) {
        assert !Plain(s[k]);
      }
    }
  }

  lemma StepLocal(s: string, k: int)
    requires 0 <= k < |s|
    ensures AddressFrom(s, k, 0) <==> Lang(Step(InLocal, s[k]), s, k + 1)
  {
    if s[k] == '@' {
      if AddressFrom(s, k, 0) {
        var i :| k <= i < |s| && PlainBetween(s, k, i) && s[i] == '@' && HostFrom(s, i + 1, 1);
        assert i == k by {
          forall i' | k < i' < |s| ensures !PlainBetween(s, k, i') {
            assert !Plain(s[k]);
          }
        }
      }
      if HostFrom(s, k + 1, 1) {
        assert PlainBetween(s, k, k);
      }
    } else if Plain(s[k]) {
      if AddressFrom(s, k, 0) {
        var i :| k <= i < |s| && PlainBetween(s, k, i) && s[i] == '@' && HostFrom(s, i + 1, 1);
        assert i != k;
        assert PlainBetween(s, k + 1, i);
      }
      if AddressFrom(s, k + 1, 0) {
        var i :| k + 1 <= i < |s| && PlainBetween(s, k + 1, i) && s[i] == '@' && HostFrom(s, i + 1, 1);
        assert PlainBetween(s, k, i);
      }
    } else {
      forall i | k < i < |s| ensures !PlainBetween(s, k, i) {
        assert !Plain(s[k]);
      }
    }
  }

  lemma StepAtSign(s: string, k: int)
    requires 0 <= k < |s|
    ensures HostFrom(s, k, 1) <==> Lang(Step(AtSign, s[k]), s, k + 1)
  {
    if Plain(s[k]) {
      if HostFrom(s, k, 1) {
        var j :| k + 1 <= j < |s| - 1 && PlainBetween(s, k, j) && s[j] == '.' && PlainBetween(s, j + 1, |s|);
        assert PlainBetween(s, k + 1, j);
      }
      if HostFrom(s, k + 1, 0) {
        var j :| k + 1 <= j < |s| - 1 && PlainBetween(s, k + 1, j) && s[j] == '.' && PlainBetween(s, j + 1, |s|);
        assert PlainBetween(s, k, j);
      }
    } else {
      forall j | k + 1 <= j < |s| ensures !PlainBetween(s, k, j) {
        assert !Plain(s[k]);
      }
    }
  }

  lemma StepInDomain(s: string, k: int)
    requires 0 <= k < |s|
    ensures HostFrom(s, k, 0) <==> Lang(Step(InDomain, s[k]), s, k + 1)
  {
    if s[k] == '.' {
      if HostFrom(s, k, 0) {
        var j :| k <= j < |s| - 1 && PlainBetween(s, k, j) && s[j] == '.' && PlainBetween(s, j + 1, |s|);
        assert PlainBetween(s, k + 1, |s|);
      }
      if k + 1 < |s| && PlainBetween(s, k + 1, |s|) {
        assert PlainBetween(s, k, k);
      }
    } else if Plain(s[k]) {
      if HostFrom(s, k, 0) {
        var j :| k <= j < |s| - 1 && PlainBetween(s, k, j) && s[j] == '.' && PlainBetween(s, j + 1, |s|);
        assert j != k;
        assert PlainBetween(s, k + 1, j);
      }
      if HostFrom(s, k + 1, 0) {
        var j :| k + 1 <= j < |s| - 1 && PlainBetween(s, k + 1, j) && s[j] == '.' && PlainBetween(s, j + 1, |s|);
        assert PlainBetween(s, k, j);
      }
    } else {
      forall j | k < j < |s| ensures !PlainBetween(s, k, j) {
        assert !Plain(s[k]);
      }
    }
  }

  lemma StepTail(q: Phase, s: string, k: int)
    requires q == AtDot || q == InSuffix
    requires 0 <= k < |s|
    ensures Lang(q, s, k) <==> Lang(Step(q, s[k]), s, k + 1)
  {
    if Plain(s[k]) {
      if PlainBetween(s, k + 1, |s|) {
        assert PlainBetween(s, k, |s|);
      }
    }
  }

  /** One character moves the automaton between phases whose languages
      correspond: the suffix from k is accepted from q exactly when the
      suffix from k + 1 is accepted from the next phase. */
  lemma StepPreservesLang(q: Phase, s: string, k: int)
    requires 0 <= k < |s|
    ensures Lang(q, s, k) <==> Lang(Step(q, s[k]), s, k + 1)
  {
    match q
    case Start => StepStart(s, k);
    case InLocal => StepLocal(s, k);
    case AtSign => StepAtSign(s, k);
    case InDomain => StepInDomain(s, k);
    case AtDot => StepTail(q, s, k);
    case InSuffix => StepTail(q, s, k);
    case Dead =>
  }

  /** Runs the automaton from phase q over s[k..]; it ends in the accepting
      phase exactly when that suffix is in q's language. */
  function Run(q: Phase, s: string, k: nat): (r: Phase)
    requires k <= |s|
    ensures r == InSuffix <==> Lang(q, s, k)
    decreases |s| - k
  {
    if k == |s| then
      LangAtEnd(q, s);
      q
    else
      StepPreservesLang(q, s, k);
      Run(Step(q, s[k]), s, k + 1)
  }

  /** isValidEmail: the automaton accepts exactly the strings the regular
      expression matches. */
  function IsValidEmail(s: string): (ok: bool)
    ensures ok <==> MatchesEmailRegex(s)
  {
    Run(Start, s, 0) == InSuffix
  }

  /** The shape of an accepted address in plain words: exactly one '@'; before
      it a non-empty part without whitespace; after it a part without
      whitespace holding a '.' that is neither its first nor its last
      character. */
  ghost predicate AddressShape(s: string) {
    exists i :: 0 <= i < |s| && s[i] == '@' && ShapedAround(s, i)
  }

  ghost predicate ShapedAround(s: string, i: int)
    requires 0 <= i < |s|
  {
    var local, domain := s[..i], s[i + 1..];
    && (forall k :: 0 <= k < |s| && s[k] == '@' ==> k == i)
    && |local| > 0 && NoWhitespace(local)
    && NoWhitespace(domain)
    && exists j :: 0 < j < |domain| - 1 && domain[j] == '.'
  }

  lemma EmailShape(s: string)
    ensures IsValidEmail(s) <==> AddressShape(s)
  {
    if MatchesEmailRegex(s) {
      MatchHasShape(s);
    }
    if AddressShape(s) {
      ShapeMatches(s);
    }
  }

  lemma MatchHasShape(s: string)
    requires MatchesEmailRegex(s)
    ensures AddressShape(s)
  {
    var i :| 1 <= i < |s| && PlainBetween(s, 0, i) && s[i] == '@' && HostFrom(s, i + 1, 1);
    var j :| i + 2 <= j < |s| - 1 && PlainBetween(s, i + 1, j) && s[j] == '.' && PlainBetween(s, j + 1, |s|);
    var local, domain := s[..i], s[i + 1..];
    assert forall k :: 0 <= k < |s| && k != i && k != j ==> Plain(s[k]);
    assert forall k :: 0 <= k < |s| && s[k] == '@' ==> k == i;
    assert NoWhitespace(local) by {
      assert forall k :: 0 <= k < |local| ==> local[k] == s[k];
    }
    assert NoWhitespace(domain) by {
      assert forall k :: 0 <= k < |domain| ==> domain[k] == s[i + 1 + k];
    }
    assert domain[j - i - 1] == '.';
    assert ShapedAround(s, i);
  }

  lemma ShapeMatches(s: string)
    requires AddressShape(s)
    ensures MatchesEmailRegex(s)
  {
    var i :| 0 <= i < |s| && s[i] == '@' && ShapedAround(s, i);
    var local, domain := s[..i], s[i + 1..];
    var jd :| 0 < jd < |domain| - 1 && domain[jd] == '.';
    var j := i + 1 + jd;
    assert forall k :: 0 <= k < i ==> s[k] == local[k];
    assert forall k :: i < k < |s| ==> s[k] == domain[k - i - 1];
    assert s[j] == '.';
    assert PlainBetween(s, 0, i);
    assert PlainBetween(s, i + 1, j);
    assert PlainBetween(s, j + 1, |s|);
    assert HostFrom(s, i + 1, 1);
  }

  /** An ordinary address is accepted: the automaton reads it through to the
      accepting phase. */
  lemma AcceptsPlainAddress()
    ensures IsValidEmail("ana@mail.cl")
  {
    AcceptsPlainAddressLocal("ana@mail.cl");
    AcceptsPlainAddressDomain("ana@mail.cl");
  }

  lemma AcceptsPlainAddressLocal(s: string)
    requires s == "ana@mail.cl"
    ensures Run(Start, s, 0) == Run(AtSign, s, 4)
  {
    assert s[0] == 'a' && s[1] == 'n' && s[2] == 'a' && s[3] == '@';
    assert Run(Start, s, 0) == Run(InLocal, s, 1);
    assert Run(InLocal, s, 1) == Run(InLocal, s, 3);
    assert Run(InLocal, s, 3) == Run(AtSign, s, 4);
  }

  lemma AcceptsPlainAddressDomain(s: string)
    requires s == "ana@mail.cl"
    ensures Run(AtSign, s, 4) == InSuffix
  {
    assert s[4] == 'm' && s[5] == 'a' && s[6] == 'i' && s[7] == 'l';
    assert Run(AtSign, s, 4) == Run(InDomain, s, 5);
    assert Run(InDomain, s, 5) == Run(InDomain, s, 8);
    assert s[8] == '.' && s[9] == 'c' && s[10] == 'l';
    assert Run(InDomain, s, 8) == Run(AtDot, s, 9);
    assert Run(AtDot, s, 9) == Run(InSuffix, s, 10);
    assert Run(InSuffix, s, 10) == InSuffix;
  }

  /** A domain without a dot is refused. */
  lemma RejectsDomainWithoutDot()
    ensures !IsValidEmail("ana@mail")
  {
    var s := "ana@mail";
    assert Plain('a') && Plain('n') && Plain('m') && Plain('i') && Plain('l');
    assert Run(Start, s, 0) == Run(InLocal, s, 1) == Run(InLocal, s, 2) == Run(InLocal, s, 3)
        == Run(AtSign, s, 4) == Run(InDomain, s, 5) == Run(InDomain, s, 6) == Run(InDomain, s, 7)
        == Run(InDomain, s, 8) == InDomain;
  }

  /** A space in the local part is refused: it sends the automaton to Dead,
      where it stays. */
  lemma RejectsSpaceInLocalPart()
    ensures !IsValidEmail("a b@c.d")
  {
    var s := "a b@c.d";
    assert !Plain(' ');
    assert Run(Start, s, 0) == Run(InLocal, s, 1) == Run(Dead, s, 2);
    assert Run(Dead, s, 2) == Run(Dead, s, 3) == Run(Dead, s, 4) == Run(Dead, s, 5) == Run(Dead, s, 6) == Run(Dead, s, 7) == Dead;
  }
}
