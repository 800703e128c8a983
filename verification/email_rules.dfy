/** The two e-mail patterns of the record keeper, each given twice: once as the
    regular expression means it (some way of cutting the string into the
    pattern's pieces exists) and once as a hand-built, one-character-at-a-time
    recogniser (a deterministic automaton), with a proof that the two agree.

    - The constructor check `re.match(r'^[\w\.-]+@[\w\.-]+\.\w+$', email)`
      (OOP.py:18-23). Python's `$` matches at the very end of the string and
      also just before one final line feed.
    - The edit-dialog check `re.match(r"[^@]+@[^@]+\.[^@]+", email)`
      (PyQTdocumented.py:504). `re.match` anchors only at the start, so a
      string is accepted when some prefix of it has the shape. */
module EmailRules {
  import opened Text

  // ---------------------------------------------------------------------------
  // Running an automaton

  /** The state an automaton reaches from `q` after reading `s` left to right. */
  function Run<Q>(step: (Q, char) -> Q, q: Q, s: string): Q
    decreases |s|
  {
    if s == [] then q else step(Run(step, q, s[..|s| - 1]), s[|s| - 1])
  }

  /** Reading `a + b` is reading `a`, then `b`. */
  lemma {:induction false} RunConcat<Q>(step: (Q, char) -> Q, q: Q, a: string, b: string)
    ensures Run(step, q, a + b) == Run(step, Run(step, q, a), b)
    decreases |b|
  {
    if b == [] {
      assert a + b == a;
    } else {
      RunConcat(step, q, a, b[..|b| - 1]);
      assert (a + b)[..|a + b| - 1] == a + b[..|b| - 1];
    }
  }

  // ---------------------------------------------------------------------------
  // The constructor pattern  ^[\w.-]+@[\w.-]+\.\w+$

  /** `[\w.-]`: a word character, a dot or a dash. */
  predicate IsAddressChar(c: char) {
    IsWordChar(c) || c == '.' || c == '-'
  }

  predicate AllAddress(s: string) {
    forall j | 0 <= j < |s| :: IsAddressChar(s[j])
  }

  predicate AllWord(s: string) {
    forall j | 0 <= j < |s| :: IsWordChar(s[j])
  }

  /** The domain `d` splits at the dot `d[k]` into `[\w.-]+`, `\.` and `\w+`. */
  predicate DomainSplit(d: string, k: int) {
    1 <= k < |d| - 1 && d[k] == '.' && AllAddress(d[..k]) && AllWord(d[k + 1..])
  }

  /** The domain `d` has the shape `[\w.-]+\.\w+`. */
  ghost predicate DomainShape(d: string) {
    exists k :: DomainSplit(d, k)
  }

  /** `s` splits at the at-sign `s[i]` into `[\w.-]+`, `@` and a matching domain. */
  ghost predicate AddressSplit(s: string, i: int) {
    1 <= i < |s| && s[i] == '@' && AllAddress(s[..i]) && DomainShape(s[i + 1..])
  }

  /** The whole of `s` has the shape `[\w.-]+@[\w.-]+\.\w+`. */
  ghost predicate AddressShape(s: string) {
    exists i :: AddressSplit(s, i)
  }

  /** What `re.match(r'^[\w\.-]+@[\w\.-]+\.\w+$', s)` accepts: the whole string
      has the shape, or all of it but one final line feed does. */
  ghost predicate AddressPattern(s: string) {
    AddressShape(s) || (s != [] && s[|s| - 1] == '\n' && AddressShape(s[..|s| - 1]))
  }

  /** States of the recogniser: nothing read, inside the local part, just after
      the at-sign, inside the domain, just after a usable dot, inside a
      well-formed top-level label, and rejected. */
  datatype AddressState = Start | Local | At | Domain | Dot | Label | Dead

  function AddressStep(q: AddressState, c: char): AddressState {
    match q
    case Start => if IsAddressChar(c) then Local else Dead
    case Local => if IsAddressChar(c) then Local else if c == '@' then At else Dead
    case At => if IsAddressChar(c) then Domain else Dead
    case Domain => if c == '.' then Dot else if IsAddressChar(c) then Domain else Dead
    case Dot => if IsWordChar(c) then Label else if c == '.' then Dot else if c == '-' then Domain else Dead
    case Label => if IsWordChar(c) then Label else if c == '.' then Dot else if c == '-' then Domain else Dead
    case Dead => Dead
  }

  /** The recogniser for the constructor pattern, including the final line feed
      that Python's `$` lets through. */
  predicate AddressAccepts(s: string) {
    Run(AddressStep, Start, s) == Label
    || (s != [] && s[|s| - 1] == '\n' && Run(AddressStep, Start, s[..|s| - 1]) == Label)
  }

  /** What reaching each state says about the text read so far. */
  ghost predicate AddressStateMeans(q: AddressState, p: string) {
    match q
    case Start => p == []
    case Local => p != [] && AllAddress(p)
    case At => |p| >= 2 && p[|p| - 1] == '@' && AllAddress(p[..|p| - 1])
    case Domain => exists i :: LocalThenDomain(p, i)
    case Dot => exists i :: LocalThenDomain(p, i) && |p| >= i + 3 && p[|p| - 1] == '.'
    case Label => exists i :: AddressSplit(p, i)
    case Dead => true
  }

  /** `p` is a local part, the at-sign `p[i]`, and a non-empty run of `[\w.-]`. */
  predicate LocalThenDomain(p: string, i: int) {
    1 <= i && i + 1 < |p| && p[i] == '@' && AllAddress(p[..i]) && AllAddress(p[i + 1..])
  }

  lemma AllAddressAppend(s: string, c: char)
    requires AllAddress(s) && IsAddressChar(c)
    ensures AllAddress(s + [c])
  {
    assert forall j | 0 <= j < |s| :: (s + [c])[j] == s[j];
  }

  lemma AllWordAppend(s: string, c: char)
    requires AllWord(s) && IsWordChar(c)
    ensures AllWord(s + [c])
  {
    assert forall j | 0 <= j < |s| :: (s + [c])[j] == s[j];
  }

  /** A split domain is made of `[\w.-]` throughout. */
  lemma DomainSplitAllAddress(d: string, k: int)
    requires DomainSplit(d, k)
    ensures AllAddress(d)
  {
    forall j | 0 <= j < |d|
      ensures IsAddressChar(d[j])
    {
      if j < k {
        assert d[j] == d[..k][j];
      } else if j > k {
        assert d[j] == d[k + 1..][j - k - 1];
      }
    }
  }

  lemma {:induction false} AddressStepMeans(q: AddressState, p: string, c: char)
    requires AddressStateMeans(q, p)
    ensures AddressStateMeans(AddressStep(q, c), p + [c])
  {
    match q
    case Start =>
    case Local =>
      if IsAddressChar(c) {
        AllAddressAppend(p, c);
      }
    case At => AtStepMeans(p, c);
    case Domain => DomainStepMeans(p, c);
    case Dot => DotStepMeans(p, c);
    case Label => LabelStepMeans(p, c);
    case Dead =>
  }

  lemma AtStepMeans(p: string, c: char)
    requires AddressStateMeans(At, p)
    ensures AddressStateMeans(AddressStep(At, c), p + [c])
  {
    if IsAddressChar(c) {
      var p' := p + [c];
      var i := |p| - 1;
      assert p'[..i] == p[..i];
      assert p'[i + 1..] == [c];
      assert LocalThenDomain(p', i);
    }
  }

  lemma DomainStepMeans(p: string, c: char)
    requires AddressStateMeans(Domain, p)
    ensures AddressStateMeans(AddressStep(Domain, c), p + [c])
  {
    var p' := p + [c];
    var i :| LocalThenDomain(p, i);
    if c == '.' {
      assert p'[..|p|] == p;
      assert LocalThenDomain(p, i) && |p| >= i + 2;
      assert p'[..i] == p[..i];
      assert p'[i + 1..] == p[i + 1..] + [c];
      AllAddressAppend(p[i + 1..], c);
      assert LocalThenDomain(p', i);
    } else if IsAddressChar(c) {
      assert p'[i + 1..] == p[i + 1..] + [c];
      AllAddressAppend(p[i + 1..], c);
      assert p'[..i] == p[..i];
      assert LocalThenDomain(p', i);
    }
  }

  lemma DotStepMeans(p: string, c: char)
    requires AddressStateMeans(Dot, p)
    ensures AddressStateMeans(AddressStep(Dot, c), p + [c])
  {
    var p' := p + [c];
    var i :| LocalThenDomain(p, i) && |p| >= i + 3 && p[|p| - 1] == '.';
    var d := p[i + 1..];
    assert p'[i + 1..] == d + [c];
    assert p'[..i] == p[..i];
    if IsWordChar(c) {
      var k := |d| - 1;
      assert (d + [c])[..k] == d[..k];
      assert (d + [c])[k + 1..] == [c];
      assert DomainSplit(d + [c], k);
      assert AddressSplit(p', i);
    } else if IsAddressChar(c) {
      AllAddressAppend(d, c);
      assert LocalThenDomain(p', i);
    }
  }

  lemma LabelStepMeans(p: string, c: char)
    requires AddressStateMeans(Label, p)
    ensures AddressStateMeans(AddressStep(Label, c), p + [c])
  {
    var i :| AddressSplit(p, i);
    var k :| DomainSplit(p[i + 1..], k);
    if IsWordChar(c) {
      LabelWordStep(p, c, i, k);
    } else if IsAddressChar(c) {
      var p' := p + [c];
      var d := p[i + 1..];
      assert p'[i + 1..] == d + [c];
      assert p'[..i] == p[..i];
      DomainSplitAllAddress(d, k);
      AllAddressAppend(d, c);
      assert LocalThenDomain(p', i);
    }
  }

  /** A word character extends the top-level label of a complete address. */
  lemma LabelWordStep(p: string, c: char, i: int, k: int)
    requires AddressSplit(p, i) && DomainSplit(p[i + 1..], k) && IsWordChar(c)
    ensures AddressSplit(p + [c], i)
  {
    var p' := p + [c];
    var d := p[i + 1..];
    assert p'[i + 1..] == d + [c];
    assert p'[..i] == p[..i];
    assert (d + [c])[..k] == d[..k];
    assert (d + [c])[k + 1..] == d[k + 1..] + [c];
    AllWordAppend(d[k + 1..], c);
    assert DomainSplit(d + [c], k);
  }

  /** Every state the recogniser reaches means what `AddressStateMeans` says. */
  lemma {:induction false} AddressRunMeans(s: string)
    ensures AddressStateMeans(Run(AddressStep, Start, s), s)
    decreases |s|
  {
    if s != [] {
      var p := s[..|s| - 1];
      AddressRunMeans(p);
      AddressStepMeans(Run(AddressStep, Start, p), p, s[|s| - 1]);
      assert p + [s[|s| - 1]] == s;
    }
  }

  lemma {:induction false} RunLocal(l: string)
    requires l != [] && AllAddress(l)
    ensures Run(AddressStep, Start, l) == Local
    decreases |l|
  {
    if |l| > 1 {
      RunLocal(l[..|l| - 1]);
    }
  }

  lemma {:induction false} RunDomain(q: AddressState, x: string)
    requires q == At || q == Domain || q == Dot || q == Label
    requires AllAddress(x)
    ensures var r := Run(AddressStep, q, x); r == q || r == Domain || r == Dot || r == Label
    decreases |x|
  {
    if x != [] {
      RunDomain(q, x[..|x| - 1]);
    }
  }

  lemma {:induction false} RunLabel(y: string)
    requires y != [] && AllWord(y)
    ensures Run(AddressStep, Dot, y) == Label
    decreases |y|
  {
    if |y| > 1 {
      RunLabel(y[..|y| - 1]);
    }
  }

  /** Every string of the shape drives the recogniser to `Label`. */
  lemma AddressShapeRuns(s: string)
    requires AddressShape(s)
    ensures Run(AddressStep, Start, s) == Label
  {
    var i :| AddressSplit(s, i);
    var k :| DomainSplit(s[i + 1..], k);
    SplitRuns(s, i, k);
  }

  /** A string cut at the at-sign `s[i]` and at the dot `k` places into its
      domain drives the recogniser to `Label`. */
  lemma SplitRuns(s: string, i: int, k: int)
    requires 1 <= i < |s| && s[i] == '@' && AllAddress(s[..i]) && DomainSplit(s[i + 1..], k)
    ensures Run(AddressStep, Start, s) == Label
  {
    var d := s[i + 1..];
    var l, x, y := s[..i], d[..k], d[k + 1..];
    CutAt(d, k);
    CutAt(s, i);
    assert s == l + ['@'] + (x + ['.'] + y);
    Reassociate(l + ['@'], x + ['.'], y);
    Reassociate(l + ['@'], x, ['.']);
    PiecesRun(l, x, y);
  }

  /** A string is what comes before position `i`, the character there, and
      what comes after. */
  lemma CutAt(s: string, i: int)
    requires 0 <= i < |s|
    ensures s == s[..i] + [s[i]] + s[i + 1..]
  {
    assert s == s[..i] + s[i..];
    assert s[i..] == [s[i]] + s[i + 1..];
  }

  /** A local part, `@`, a domain run, `.` and a word run drive the recogniser to `Label`. */
  lemma PiecesRun(l: string, x: string, y: string)
    requires l != [] && AllAddress(l) && x != [] && AllAddress(x) && y != [] && AllWord(y)
    ensures Run(AddressStep, Start, l + ['@'] + x + ['.'] + y) == Label
  {
    var a1 := l + ['@'];
    var a2 := a1 + x;
    var a3 := a2 + ['.'];
    RunLocal(l);
    RunSnoc(AddressStep, Start, l, '@');
    RunConcat(AddressStep, Start, a1, x);
    RunDomainNonEmpty(x);
    RunSnoc(AddressStep, Start, a2, '.');
    RunConcat(AddressStep, Start, a3, y);
    RunLabel(y);
  }

  lemma Reassociate(a: string, b: string, c: string)
    ensures a + (b + c) == a + b + c
  {
  }

  lemma RunSnoc<Q>(step: (Q, char) -> Q, q: Q, s: string, c: char)
    ensures Run(step, q, s + [c]) == step(Run(step, q, s), c)
  {
    assert (s + [c])[..|s|] == s;
  }

  lemma RunDomainNonEmpty(x: string)
    requires x != [] && AllAddress(x)
    ensures var r := Run(AddressStep, At, x); r == Domain || r == Dot || r == Label
  {
    var x0 := x[..|x| - 1];
    RunDomain(At, x0);
  }

  /** The recogniser accepts exactly the strings the constructor pattern matches. */
  lemma AddressAcceptsIffPattern(s: string)
    ensures AddressAccepts(s) <==> AddressPattern(s)
  {
    AddressRunMeans(s);
    if AddressShape(s) {
      AddressShapeRuns(s);
    }
    if s != [] && s[|s| - 1] == '\n' {
      var p := s[..|s| - 1];
      AddressRunMeans(p);
      if AddressShape(p) {
        AddressShapeRuns(p);
      }
    }
  }

  // ---------------------------------------------------------------------------
  // The edit-dialog pattern  [^@]+@[^@]+\.[^@]+  (prefix match)

  predicate NoAt(s: string) {
    forall j | 0 <= j < |s| :: s[j] != '@'
  }

  /** The prefix of `s` up to `k + 2` splits as `[^@]+` `@` (at `i`) `[^@]+`
      `\.` (at `k`) and one more character other than `@`. */
  predicate LooseSplit(s: string, i: int, k: int) {
    1 <= i && i + 2 <= k && k + 1 < |s| && s[i] == '@' && s[k] == '.' && s[k + 1] != '@'
    && NoAt(s[..i]) && NoAt(s[i + 1..k])
  }

  /** What `re.match(r"[^@]+@[^@]+\.[^@]+", s)` accepts: some prefix of `s` has
      the shape. A longer run of `[^@]` after the dot only extends the match. */
  ghost predicate LoosePattern(s: string) {
    exists i, k :: LooseSplit(s, i, k)
  }

  /** States: nothing read, in the local part, just after the at-sign, in the
      domain, just after a dot that can end the domain, matched, rejected. */
  datatype LooseState = LStart | LLocal | LAt | LDomain | LDot | LMatched | LDead

  function LooseStep(q: LooseState, c: char): LooseState {
    match q
    case LStart => if c == '@' then LDead else LLocal
    case LLocal => if c == '@' then LAt else LLocal
    case LAt => if c == '@' then LDead else LDomain
    case LDomain => if c == '@' then LDead else if c == '.' then LDot else LDomain
    case LDot => if c == '@' then LDead else LMatched
    case LMatched => LMatched
    case LDead => LDead
  }

  /** The recogniser for the edit-dialog pattern. */
  predicate LooseAccepts(s: string) {
    Run(LooseStep, LStart, s) == LMatched
  }

  ghost predicate LooseStateMeans(q: LooseState, p: string) {
    match q
    case LStart => p == []
    case LLocal => p != [] && NoAt(p)
    case LAt => |p| >= 2 && p[|p| - 1] == '@' && NoAt(p[..|p| - 1])
    case LDomain => exists i :: LocalThenLoose(p, i)
    case LDot => exists i :: LocalThenLoose(p, i) && |p| >= i + 3 && p[|p| - 1] == '.'
    case LMatched => LoosePattern(p)
    case LDead => true
  }

  /** `p` is a `[^@]+` local part, the at-sign `p[i]`, and a non-empty `[^@]` run. */
  predicate LocalThenLoose(p: string, i: int) {
    1 <= i && i + 1 < |p| && p[i] == '@' && NoAt(p[..i]) && NoAt(p[i + 1..])
  }

  lemma NoAtAppend(s: string, c: char)
    requires NoAt(s) && c != '@'
    ensures NoAt(s + [c])
  {
    assert forall j | 0 <= j < |s| :: (s + [c])[j] == s[j];
  }

  /** A longer string keeps every prefix match. */
  lemma LooseSplitExtends(p: string, c: char, i: int, k: int)
    requires LooseSplit(p, i, k)
    ensures LooseSplit(p + [c], i, k)
  {
    var p' := p + [c];
    assert p'[..i] == p[..i];
    assert p'[i + 1..k] == p[i + 1..k];
  }

  lemma {:induction false} LooseStepMeans(q: LooseState, p: string, c: char)
    requires LooseStateMeans(q, p)
    ensures LooseStateMeans(LooseStep(q, c), p + [c])
  {
    var p' := p + [c];
    assert p'[..|p|] == p;
    match q
    case LStart =>
    case LLocal =>
      if c != '@' {
        NoAtAppend(p, c);
      }
    case LAt =>
      if c != '@' {
        var i := |p| - 1;
        assert p'[..i] == p[..i];
        assert p'[i + 1..] == [c];
        assert LocalThenLoose(p', i);
      }
    case LDomain =>
      var i :| LocalThenLoose(p, i);
      if c != '@' {
        assert p'[i + 1..] == p[i + 1..] + [c];
        NoAtAppend(p[i + 1..], c);
        assert p'[..i] == p[..i];
        assert LocalThenLoose(p', i);
      }
    case LDot =>
      var i :| LocalThenLoose(p, i) && |p| >= i + 3 && p[|p| - 1] == '.';
      if c != '@' {
        var k := |p| - 1;
        assert p'[..i] == p[..i];
        assert p'[i + 1..k] == p[i + 1..][..k - i - 1];
        assert LooseSplit(p', i, k);
      }
    case LMatched =>
      var i, k :| LooseSplit(p, i, k);
      LooseSplitExtends(p, c, i, k);
    case LDead =>
  }

  lemma {:induction false} LooseRunMeans(s: string)
    ensures LooseStateMeans(Run(LooseStep, LStart, s), s)
    decreases |s|
  {
    if s != [] {
      var p := s[..|s| - 1];
      LooseRunMeans(p);
      LooseStepMeans(Run(LooseStep, LStart, p), p, s[|s| - 1]);
      assert p + [s[|s| - 1]] == s;
    }
  }

  lemma {:induction false} RunLooseLocal(l: string)
    requires l != [] && NoAt(l)
    ensures Run(LooseStep, LStart, l) == LLocal
    decreases |l|
  {
    if |l| > 1 {
      RunLooseLocal(l[..|l| - 1]);
    }
  }

  lemma {:induction false} RunLooseDomain(x: string)
    requires x != [] && NoAt(x)
    ensures var r := Run(LooseStep, LAt, x); r == LDomain || r == LDot || r == LMatched
    decreases |x|
  {
    if |x| > 1 {
      RunLooseDomain(x[..|x| - 1]);
    }
  }

  lemma {:induction false} RunMatchedStays(y: string)
    ensures Run(LooseStep, LMatched, y) == LMatched
    decreases |y|
  {
    if y != [] {
      RunMatchedStays(y[..|y| - 1]);
    }
  }

  /** The recogniser accepts exactly the strings the edit-dialog pattern matches. */
  lemma LooseAcceptsIffPattern(s: string)
    ensures LooseAccepts(s) <==> LoosePattern(s)
  {
    LooseRunMeans(s);
    if LoosePattern(s) {
      var i, k :| LooseSplit(s, i, k);
      var l, x, y := s[..i], s[i + 1..k], s[k + 2..];
      assert s == l + ['@'] + x + ['.'] + [s[k + 1]] + y;
      RunLooseLocal(l);
      RunConcat(LooseStep, LStart, l, ['@']);
      RunConcat(LooseStep, LStart, l + ['@'], x);
      RunLooseDomain(x);
      RunConcat(LooseStep, LStart, l + ['@'] + x, ['.']);
      var qd := Run(LooseStep, LStart, l + ['@'] + x + ['.']);
      assert qd == LDot || qd == LMatched;
      RunConcat(LooseStep, LStart, l + ['@'] + x + ['.'], [s[k + 1]]);
      assert Run(LooseStep, LStart, l + ['@'] + x + ['.'] + [s[k + 1]]) == LMatched;
      RunConcat(LooseStep, LStart, l + ['@'] + x + ['.'] + [s[k + 1]], y);
      RunMatchedStays(y);
    }
  }
}
