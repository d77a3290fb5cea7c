/**
 * The placeholder scanner shared by `applyTemplate` (src/extension.ts:174-183,
 * src/core/templateUtils.ts:80-89) and `getAllTemplateVariables`
 * (src/extension.ts:114-133, src/core/templateUtils.ts:62-78).
 *
 * Both use the pattern  {{ \s* ident ( . ident )? \s* }}  with `ident` the
 * class [a-zA-Z0-9_] (written `[\w]` in the discovery regex). That class is
 * disjoint from `.`, whitespace and `}`, so the regex never needs to
 * backtrack: at each character the next step is determined, and the
 * left-to-right automaton `Lex` below accepts exactly what the regex accepts
 * at a given position. Positions are indices into the whole text, as the
 * regex engine's `lastIndex` is.
 */
module Tokens {
  import opened Wrappers
  import opened Chars
  import opened Modifiers

  /** A placeholder: the base name and the optional modifier suffix. */
  datatype Token = Token(base: string, modifier: Option<string>)

  /** Where the parts of a match lie: the base name is `s[a..b]`, the
      modifier (when `c > b`) is `s[b + 1..c]`, and the match ends at `end`. */
  datatype Span = Span(a: nat, b: nat, c: nat, end: nat)

  predicate IsIdent(w: string)
  {
    w != [] && forall i :: 0 <= i < |w| ==> IsWordChar(w[i])
  }

  predicate IsSpaces(w: string)
  {
    forall i :: 0 <= i < |w| ==> IsSpace(w[i])
  }

  /** Where the automaton is inside a placeholder, after the opening `{{`:
      in the leading `\s*`, in the base name, just after the `.`, in the
      modifier name, or in the trailing `\s*` before `}}`. */
  datatype Phase = Lead | InBase | AfterDot | InModifier | Trail

  /** What the positions recorded so far satisfy in each phase: the base name
      starts at `a`, ends at `b`, and the modifier ends at `c`. */
  predicate PhaseOk(k: nat, ph: Phase, a: nat, b: nat, c: nat)
  {
    match ph
    case Lead => true
    case InBase => a < k
    case AfterDot => a < b && b + 1 == k
    case InModifier => a < b && b + 2 <= k
    case Trail => a < b <= c <= k && (c == b || b + 2 <= c)
  }

  /** Well-placed parts of a match inside `s`. */
  predicate SpanOk(s: string, sp: Span)
  {
    sp.a < sp.b <= sp.c && sp.c + 2 <= sp.end <= |s| && (sp.c == sp.b || sp.b + 2 <= sp.c)
  }

  /** The rest of the placeholder regex, from position `k` in phase `ph`. */
  function Lex(s: string, k: nat, ph: Phase, a: nat, b: nat, c: nat): (m: Option<Span>)
    requires k <= |s| && PhaseOk(k, ph, a, b, c)
    ensures m.Some? ==> SpanOk(s, m.value) && k < m.value.end
    ensures m.Some? ==> if ph == Lead then k <= m.value.a else m.value.a == a
    decreases |s| - k, if ph == Trail then 0 else 1
  {
    if k == |s| then None
    else match ph
      case Lead =>
        if IsSpace(s[k]) then Lex(s, k + 1, Lead, a, b, c)
        else if IsWordChar(s[k]) then Lex(s, k + 1, InBase, k, b, c)
        else None
      case InBase =>
        if IsWordChar(s[k]) then Lex(s, k + 1, InBase, a, b, c)
        else if s[k] == '.' then Lex(s, k + 1, AfterDot, a, k, c)
        else Lex(s, k, Trail, a, k, k)
      case AfterDot =>
        if IsWordChar(s[k]) then Lex(s, k + 1, InModifier, a, b, c) else None
      case InModifier =>
        if IsWordChar(s[k]) then Lex(s, k + 1, InModifier, a, b, c) else Lex(s, k, Trail, a, b, k)
      case Trail =>
        if IsSpace(s[k]) then Lex(s, k + 1, Trail, a, b, c)
        else if s[k] == '}' && k + 1 < |s| && s[k + 1] == '}' then Some(Span(a, b, c, k + 2))
        else None
  }

  /** Well-placed parts of a match that starts at `i`. */
  predicate SpanFits(s: string, i: nat, sp: Span)
  {
    i + 2 <= sp.a && SpanOk(s, sp)
  }

  /** The placeholder regex tried at position `i`. */
  function SpanAt(s: string, i: nat): (m: Option<Span>)
    requires i <= |s|
    ensures m.Some? ==> SpanFits(s, i, m.value)
  {
    if i + 2 <= |s| && s[i] == '{' && s[i + 1] == '{' then Lex(s, i + 2, Lead, i + 2, i + 2, i + 2) else None
  }

  /** The placeholder whose parts lie at `sp`. */
  function TokenOf(s: string, sp: Span): Token
    requires sp.a <= sp.b <= sp.c <= |s| && (sp.c == sp.b || sp.b + 1 <= sp.c)
  {
    Token(s[sp.a..sp.b], if sp.c == sp.b then None else Some(s[sp.b + 1..sp.c]))
  }

  /** A placeholder matches at position `i` of `s`. */
  predicate TokenAt(s: string, i: nat)
  {
    i < |s| && SpanAt(s, i).Some?
  }

  /** The base name of the placeholder matching at position `i`. */
  function BaseAt(s: string, i: nat): string
    requires TokenAt(s, i)
  {
    TokenOf(s, SpanAt(s, i).value).base
  }

  /** The replacement callback: a missing base gives '', a registered
      modifier is applied to the value, and an unregistered one leaves the
      value as it is. Only `vars[base]` is ever looked up. */
  function Resolve(t: Token, vars: map<string, string>, reg: Registry): string
  {
    if t.base !in vars then []
    else if t.modifier.Some? && ApplyNamed(reg, t.modifier.value, vars[t.base]).Some?
    then ApplyNamed(reg, t.modifier.value, vars[t.base]).value
    else vars[t.base]
  }

  /** The global replace from position `i` on: either a placeholder matches
      and is replaced, the pass resuming right after it, or one character is
      copied and the pass moves one position on. */
  function ApplyFrom(s: string, i: nat, vars: map<string, string>, reg: Registry): string
    requires i <= |s|
    decreases |s| - i
  {
    if i == |s| then []
    else match SpanAt(s, i)
      case Some(sp) => Resolve(TokenOf(s, sp), vars, reg) + ApplyFrom(s, sp.end, vars, reg)
      case None => [s[i]] + ApplyFrom(s, i + 1, vars, reg)
  }

  /** applyTemplate(str, vars, modifiers): `str.replace(regex, callback)`. */
  function ApplyTemplate(s: string, vars: map<string, string>, reg: Registry): string
  {
    ApplyFrom(s, 0, vars, reg)
  }

  /** The base names the same pass meets from position `i` on. */
  function BasesFrom(s: string, i: nat): set<string>
    requires i <= |s|
    decreases |s| - i
  {
    if i == |s| then {}
    else match SpanAt(s, i)
      case Some(sp) => {TokenOf(s, sp).base} + BasesFrom(s, sp.end)
      case None => BasesFrom(s, i + 1)
  }

  /** The base names of the placeholders the pass finds in `s`. */
  function TokenBases(s: string): set<string>
  {
    BasesFrom(s, 0)
  }

  // ---------------------------------------------------------------------
  // What the matcher accepts
  // ---------------------------------------------------------------------

  /** Where a phase stands in the termination order of the automaton: the
      trailing phase is the only one entered without reading a character. */
  function PhaseRank(ph: Phase): nat
  {
    if ph == Trail then 0 else 1
  }

  /** No opening brace between position `k` and the end of a match, when
      there is one. */
  predicate NoBraceUpTo(s: string, k: nat, m: Option<Span>)
    requires m.Some? ==> m.value.end <= |s|
  {
    m.Some? ==> forall q :: k <= q < m.value.end ==> s[q] != '{'
  }

  /** The characters read from position `k` to the end of a match are never
      an opening brace. */
  lemma {:induction false} LexNoBrace(s: string, k: nat, ph: Phase, a: nat, b: nat, c: nat)
    requires k <= |s| && PhaseOk(k, ph, a, b, c)
    ensures NoBraceUpTo(s, k, Lex(s, k, ph, a, b, c))
    decreases |s| - k, PhaseRank(ph), 1
  {
    if k < |s| {
      match ph
      case Lead => LexNoBraceLead(s, k, a, b, c);
      case InBase => LexNoBraceBase(s, k, a, b, c);
      case AfterDot => LexNoBraceDot(s, k, a, b, c);
      case InModifier => LexNoBraceModifier(s, k, a, b, c);
      case Trail => LexNoBraceTrail(s, k, a, b, c);
    }
  }

  lemma {:induction false} LexNoBraceLead(s: string, k: nat, a: nat, b: nat, c: nat)
    requires k < |s|
    ensures NoBraceUpTo(s, k, Lex(s, k, Lead, a, b, c))
    decreases |s| - k, 1, 0
  {
    if IsSpace(s[k]) { LexNoBrace(s, k + 1, Lead, a, b, c); }
    else if IsWordChar(s[k]) { LexNoBrace(s, k + 1, InBase, k, b, c); }
  }

  lemma {:induction false} LexNoBraceBase(s: string, k: nat, a: nat, b: nat, c: nat)
    requires k < |s| && a < k
    ensures NoBraceUpTo(s, k, Lex(s, k, InBase, a, b, c))
    decreases |s| - k, 1, 0
  {
    if IsWordChar(s[k]) { LexNoBrace(s, k + 1, InBase, a, b, c); }
    else if s[k] == '.' { LexNoBrace(s, k + 1, AfterDot, a, k, c); }
    else { LexNoBrace(s, k, Trail, a, k, k); }
  }

  lemma {:induction false} LexNoBraceDot(s: string, k: nat, a: nat, b: nat, c: nat)
    requires k < |s| && a < b && b + 1 == k
    ensures NoBraceUpTo(s, k, Lex(s, k, AfterDot, a, b, c))
    decreases |s| - k, 1, 0
  {
    if IsWordChar(s[k]) { LexNoBrace(s, k + 1, InModifier, a, b, c); }
  }

  lemma {:induction false} LexNoBraceModifier(s: string, k: nat, a: nat, b: nat, c: nat)
    requires k < |s| && a < b && b + 2 <= k
    ensures NoBraceUpTo(s, k, Lex(s, k, InModifier, a, b, c))
    decreases |s| - k, 1, 0
  {
    if IsWordChar(s[k]) { LexNoBrace(s, k + 1, InModifier, a, b, c); }
    else { LexNoBrace(s, k, Trail, a, b, k); }
  }

  lemma {:induction false} LexNoBraceTrail(s: string, k: nat, a: nat, b: nat, c: nat)
    requires k < |s| && PhaseOk(k, Trail, a, b, c)
    ensures NoBraceUpTo(s, k, Lex(s, k, Trail, a, b, c))
    decreases |s| - k, 0, 0
  {
    if IsSpace(s[k]) { LexNoBrace(s, k + 1, Trail, a, b, c); }
  }

  /** The identifier characters read so far in each phase. */
  predicate WordsSoFar(s: string, k: nat, ph: Phase, a: nat, b: nat, c: nat)
    requires k <= |s| && PhaseOk(k, ph, a, b, c)
  {
    match ph
    case Lead => true
    case InBase => forall q :: a <= q < k ==> IsWordChar(s[q])
    case AfterDot => forall q :: a <= q < b ==> IsWordChar(s[q])
    case InModifier => (forall q :: a <= q < b ==> IsWordChar(s[q])) && forall q :: b + 1 <= q < k ==> IsWordChar(s[q])
    case Trail => (forall q :: a <= q < b ==> IsWordChar(s[q])) && forall q :: b + 1 <= q < c ==> IsWordChar(s[q])
  }

  /** The names of a match, when there is one, are made of identifier characters. */
  predicate WordsFound(s: string, m: Option<Span>)
    requires m.Some? ==> SpanOk(s, m.value)
  {
    m.Some? ==>
      (forall q :: m.value.a <= q < m.value.b ==> IsWordChar(s[q])) &&
      (forall q :: m.value.b + 1 <= q < m.value.c ==> IsWordChar(s[q]))
  }

  /** The names a match carries are made of identifier characters. */
  lemma {:induction false} LexWords(s: string, k: nat, ph: Phase, a: nat, b: nat, c: nat)
    requires k <= |s| && PhaseOk(k, ph, a, b, c) && WordsSoFar(s, k, ph, a, b, c)
    ensures WordsFound(s, Lex(s, k, ph, a, b, c))
    decreases |s| - k, PhaseRank(ph), 1
  {
    if k < |s| {
      match ph
      case Lead => LexWordsLead(s, k, a, b, c);
      case InBase => LexWordsBase(s, k, a, b, c);
      case AfterDot => LexWordsDot(s, k, a, b, c);
      case InModifier => LexWordsModifier(s, k, a, b, c);
      case Trail => LexWordsTrail(s, k, a, b, c);
    }
  }

  lemma {:induction false} LexWordsLead(s: string, k: nat, a: nat, b: nat, c: nat)
    requires k < |s|
    ensures WordsFound(s, Lex(s, k, Lead, a, b, c))
    decreases |s| - k, 1, 0
  {
    if IsSpace(s[k]) { LexWords(s, k + 1, Lead, a, b, c); }
    else if IsWordChar(s[k]) { LexWords(s, k + 1, InBase, k, b, c); }
  }

  lemma {:induction false} LexWordsBase(s: string, k: nat, a: nat, b: nat, c: nat)
    requires k < |s| && a < k && forall q :: a <= q < k ==> IsWordChar(s[q])
    ensures WordsFound(s, Lex(s, k, InBase, a, b, c))
    decreases |s| - k, 1, 0
  {
    if IsWordChar(s[k]) { LexWords(s, k + 1, InBase, a, b, c); }
    else if s[k] == '.' { LexWords(s, k + 1, AfterDot, a, k, c); }
    else { LexWords(s, k, Trail, a, k, k); }
  }

  lemma {:induction false} LexWordsDot(s: string, k: nat, a: nat, b: nat, c: nat)
    requires k < |s| && a < b && b + 1 == k && forall q :: a <= q < b ==> IsWordChar(s[q])
    ensures WordsFound(s, Lex(s, k, AfterDot, a, b, c))
    decreases |s| - k, 1, 0
  {
    if IsWordChar(s[k]) { LexWords(s, k + 1, InModifier, a, b, c); }
  }

  lemma {:induction false} LexWordsModifier(s: string, k: nat, a: nat, b: nat, c: nat)
    requires k < |s| && a < b && b + 2 <= k
    requires forall q :: a <= q < b ==> IsWordChar(s[q])
    requires forall q :: b + 1 <= q < k ==> IsWordChar(s[q])
    ensures WordsFound(s, Lex(s, k, InModifier, a, b, c))
    decreases |s| - k, 1, 0
  {
    if IsWordChar(s[k]) { LexWords(s, k + 1, InModifier, a, b, c); }
    else { LexWords(s, k, Trail, a, b, k); }
  }

  lemma {:induction false} LexWordsTrail(s: string, k: nat, a: nat, b: nat, c: nat)
    requires k < |s| && PhaseOk(k, Trail, a, b, c)
    requires forall q :: a <= q < b ==> IsWordChar(s[q])
    requires forall q :: b + 1 <= q < c ==> IsWordChar(s[q])
    ensures WordsFound(s, Lex(s, k, Trail, a, b, c))
    decreases |s| - k, 0, 0
  {
    if IsSpace(s[k]) { LexWords(s, k + 1, Trail, a, b, c); }
  }

  lemma IdentSlice(s: string, i: nat, j: nat)
    requires i < j <= |s| && forall q :: i <= q < j ==> IsWordChar(s[q])
    ensures IsIdent(s[i..j])
  {
    assert forall q :: 0 <= q < j - i ==> s[i..j][q] == s[i + q];
  }

  /** After the opening `{{` of a match there is no other `{` in it, and the
      names it carries are identifiers. */
  lemma SpanAtFacts(s: string, i: nat)
    requires i <= |s| && SpanAt(s, i).Some?
    ensures forall k :: i + 2 <= k < SpanAt(s, i).value.end ==> s[k] != '{'
    ensures IsIdent(TokenOf(s, SpanAt(s, i).value).base)
    ensures TokenOf(s, SpanAt(s, i).value).modifier.Some? ==> IsIdent(TokenOf(s, SpanAt(s, i).value).modifier.value)
  {
    LexNoBrace(s, i + 2, Lead, i + 2, i + 2, i + 2);
    SpanAtNames(s, i);
  }

  /** The names of a match are identifiers. */
  lemma SpanAtNames(s: string, i: nat)
    requires i <= |s| && SpanAt(s, i).Some?
    ensures IsIdent(TokenOf(s, SpanAt(s, i).value).base)
    ensures TokenOf(s, SpanAt(s, i).value).modifier.Some? ==> IsIdent(TokenOf(s, SpanAt(s, i).value).modifier.value)
  {
    var sp := SpanAt(s, i).value;
    LexWords(s, i + 2, Lead, i + 2, i + 2, i + 2);
    IdentSlice(s, sp.a, sp.b);
    if sp.c != sp.b {
      IdentSlice(s, sp.b + 1, sp.c);
    }
  }

  /** Inside a match no other match can start: after the opening `{{` come only
      whitespace, identifier characters, `.` and `}`. */
  lemma MatchesDoNotOverlap(s: string, i: nat, j: nat)
    requires i <= |s| && SpanAt(s, i).Some? && i < j < SpanAt(s, i).value.end
    ensures SpanAt(s, j).None?
  {
    SpanAtFacts(s, i);
  }

  // ---------------------------------------------------------------------
  // The base names met by the pass
  // ---------------------------------------------------------------------

  /** Every base name the pass reports comes from a placeholder that matches
      at some position of the text. */
  lemma {:induction false} BasesFromSound(s: string, i: nat, x: string)
    requires i <= |s| && x in BasesFrom(s, i)
    ensures exists j: nat :: i <= j && TokenAt(s, j) && BaseAt(s, j) == x
    decreases |s| - i
  {
    if SpanAt(s, i).Some? {
      if x != BaseAt(s, i) {
        BasesFromSound(s, SpanAt(s, i).value.end, x);
      }
    } else {
      BasesFromSound(s, i + 1, x);
    }
  }

  /** Every placeholder that matches at some position is met by the pass: it
      never steps over one. */
  lemma {:induction false} BasesFromComplete(s: string, i: nat, j: nat)
    requires i <= j && TokenAt(s, j)
    ensures BaseAt(s, j) in BasesFrom(s, i)
    decreases |s| - i
  {
    if i < j {
      if SpanAt(s, i).Some? {
        var e := SpanAt(s, i).value.end;
        if j < e {
          MatchesDoNotOverlap(s, i, j);
        } else {
          BasesFromComplete(s, e, j);
        }
      } else {
        BasesFromComplete(s, i + 1, j);
      }
    }
  }

  /** The pass reports a base name exactly when a placeholder with that base
      matches at some position of the text. */
  lemma TokenBasesExact(s: string, x: string)
    ensures x in TokenBases(s) <==> exists j: nat :: TokenAt(s, j) && BaseAt(s, j) == x
  {
    if x in TokenBases(s) {
      BasesFromSound(s, 0, x);
    }
    if exists j: nat :: TokenAt(s, j) && BaseAt(s, j) == x {
      var j: nat :| TokenAt(s, j) && BaseAt(s, j) == x;
      BasesFromComplete(s, 0, j);
    }
  }

  /** Discovered names are base names only: identifiers, never `base.mod`. */
  lemma TokenBasesAreIdents(s: string)
    ensures forall x :: x in TokenBases(s) ==> IsIdent(x)
  {
    forall x | x in TokenBases(s)
      ensures IsIdent(x)
    {
      TokenBasesExact(s, x);
      var j: nat :| TokenAt(s, j) && BaseAt(s, j) == x;
      SpanAtFacts(s, j);
    }
  }

  // ---------------------------------------------------------------------
  // Matching after a prefix
  // ---------------------------------------------------------------------

  /** A span found in `s`, seen from a text with `n` more characters in front. */
  function Shifted(m: Option<Span>, n: nat): Option<Span>
  {
    if m.Some? then Some(Span(n + m.value.a, n + m.value.b, n + m.value.c, n + m.value.end)) else None
  }

  /** The automaton does not look at what precedes its position. */
  lemma {:induction false} LexShift(p: string, s: string, k: nat, ph: Phase, a: nat, b: nat, c: nat)
    requires k <= |s| && PhaseOk(k, ph, a, b, c)
    ensures Lex(p + s, |p| + k, ph, |p| + a, |p| + b, |p| + c) == Shifted(Lex(s, k, ph, a, b, c), |p|)
    decreases |s| - k, PhaseRank(ph), 1
  {
    if k < |s| {
      assert (p + s)[|p| + k] == s[k];
      assert k + 1 < |s| ==> (p + s)[|p| + k + 1] == s[k + 1];
      match ph
      case Lead => LexShiftLead(p, s, k, a, b, c);
      case InBase => LexShiftBase(p, s, k, a, b, c);
      case AfterDot => LexShiftDot(p, s, k, a, b, c);
      case InModifier => LexShiftModifier(p, s, k, a, b, c);
      case Trail => LexShiftTrail(p, s, k, a, b, c);
    }
  }

  lemma {:induction false} LexShiftLead(p: string, s: string, k: nat, a: nat, b: nat, c: nat)
    requires k < |s| && (p + s)[|p| + k] == s[k]
    ensures Lex(p + s, |p| + k, Lead, |p| + a, |p| + b, |p| + c) == Shifted(Lex(s, k, Lead, a, b, c), |p|)
    decreases |s| - k, 1, 0
  {
    if IsSpace(s[k]) { LexShift(p, s, k + 1, Lead, a, b, c); }
    else if IsWordChar(s[k]) { LexShift(p, s, k + 1, InBase, k, b, c); }
  }

  lemma {:induction false} LexShiftBase(p: string, s: string, k: nat, a: nat, b: nat, c: nat)
    requires k < |s| && a < k && (p + s)[|p| + k] == s[k]
    ensures Lex(p + s, |p| + k, InBase, |p| + a, |p| + b, |p| + c) == Shifted(Lex(s, k, InBase, a, b, c), |p|)
    decreases |s| - k, 1, 0
  {
    if IsWordChar(s[k]) { LexShift(p, s, k + 1, InBase, a, b, c); }
    else if s[k] == '.' { LexShift(p, s, k + 1, AfterDot, a, k, c); }
    else { LexShift(p, s, k, Trail, a, k, k); }
  }

  lemma {:induction false} LexShiftDot(p: string, s: string, k: nat, a: nat, b: nat, c: nat)
    requires k < |s| && a < b && b + 1 == k && (p + s)[|p| + k] == s[k]
    ensures Lex(p + s, |p| + k, AfterDot, |p| + a, |p| + b, |p| + c) == Shifted(Lex(s, k, AfterDot, a, b, c), |p|)
    decreases |s| - k, 1, 0
  {
    if IsWordChar(s[k]) { LexShift(p, s, k + 1, InModifier, a, b, c); }
  }

  lemma {:induction false} LexShiftModifier(p: string, s: string, k: nat, a: nat, b: nat, c: nat)
    requires k < |s| && a < b && b + 2 <= k && (p + s)[|p| + k] == s[k]
    ensures Lex(p + s, |p| + k, InModifier, |p| + a, |p| + b, |p| + c) == Shifted(Lex(s, k, InModifier, a, b, c), |p|)
    decreases |s| - k, 1, 0
  {
    if IsWordChar(s[k]) { LexShift(p, s, k + 1, InModifier, a, b, c); }
    else { LexShift(p, s, k, Trail, a, b, k); }
  }

  lemma {:induction false} LexShiftTrail(p: string, s: string, k: nat, a: nat, b: nat, c: nat)
    requires k < |s| && PhaseOk(k, Trail, a, b, c) && (p + s)[|p| + k] == s[k]
    requires k + 1 < |s| ==> (p + s)[|p| + k + 1] == s[k + 1]
    ensures Lex(p + s, |p| + k, Trail, |p| + a, |p| + b, |p| + c) == Shifted(Lex(s, k, Trail, a, b, c), |p|)
    decreases |s| - k, 0, 0
  {
    if IsSpace(s[k]) { LexShift(p, s, k + 1, Trail, a, b, c); }
  }

  /** A match does not look at what precedes its position. */
  lemma SpanAtShift(p: string, s: string, i: nat)
    requires i <= |s|
    ensures SpanAt(p + s, |p| + i) == Shifted(SpanAt(s, i), |p|)
  {
    if i + 2 <= |s| {
      assert (p + s)[|p| + i] == s[i] && (p + s)[|p| + i + 1] == s[i + 1];
      LexShift(p, s, i + 2, Lead, i + 2, i + 2, i + 2);
    }
  }

  lemma SliceShift(p: string, s: string, i: nat, j: nat)
    requires i <= j <= |s|
    ensures (p + s)[|p| + i..|p| + j] == s[i..j]
  {
  }

  /** One step of the pass where a placeholder matches. */
  lemma ApplyMatched(s: string, i: nat, sp: Span, vars: map<string, string>, reg: Registry)
    requires i <= |s| && SpanAt(s, i) == Some(sp)
    ensures ApplyFrom(s, i, vars, reg) == Resolve(TokenOf(s, sp), vars, reg) + ApplyFrom(s, sp.end, vars, reg)
  {
  }

  /** Two passes that meet the same placeholder and agree after it agree
      from where they met it. */
  lemma MatchedAlike(t: string, j: nat, sq: Span, e: nat, u: string, k: nat, sp: Span, vars: map<string, string>, reg: Registry)
    requires j <= |t| && SpanAt(t, j) == Some(sq) && sq.end == e
    requires k <= |u| && SpanAt(u, k) == Some(sp)
    requires TokenOf(t, sq) == TokenOf(u, sp) && e <= |t| && ApplyFrom(t, e, vars, reg) == ApplyFrom(u, sp.end, vars, reg)
    ensures ApplyFrom(t, j, vars, reg) == ApplyFrom(u, k, vars, reg)
  {
    ApplyMatched(t, j, sq, vars, reg);
    ApplyMatched(u, k, sp, vars, reg);
  }

  /** The pass has nothing left to replace at the end of the text. */
  lemma ApplyAtEnd(s: string, i: nat, vars: map<string, string>, reg: Registry)
    requires i == |s|
    ensures ApplyFrom(s, i, vars, reg) == []
  {
  }

  /** One step of the pass where no placeholder matches. */
  lemma ApplyUnmatched(s: string, i: nat, vars: map<string, string>, reg: Registry)
    requires i < |s| && SpanAt(s, i).None?
    ensures ApplyFrom(s, i, vars, reg) == [s[i]] + ApplyFrom(s, i + 1, vars, reg)
  {
  }

  /** The placeholder seen through a prefix is the one seen without it. */
  lemma TokenOfShift(p: string, s: string, sp: Span)
    requires sp.a <= sp.b <= sp.c <= |s| && (sp.c == sp.b || sp.b + 1 <= sp.c)
    ensures TokenOf(p + s, Span(|p| + sp.a, |p| + sp.b, |p| + sp.c, |p| + sp.end)) == TokenOf(s, sp)
  {
    SliceShift(p, s, sp.a, sp.b);
    if sp.c != sp.b {
      SliceShift(p, s, sp.b + 1, sp.c);
    }
  }

  /** A match seen through a prefix: the same placeholder, moved by its length. */
  lemma ShiftedMatch(p: string, s: string, i: nat, sp: Span)
    requires i <= |s| && SpanAt(s, i) == Some(sp)
    ensures SpanAt(p + s, |p| + i) == Some(Span(|p| + sp.a, |p| + sp.b, |p| + sp.c, |p| + sp.end))
    ensures TokenOf(p + s, Span(|p| + sp.a, |p| + sp.b, |p| + sp.c, |p| + sp.end)) == TokenOf(s, sp)
  {
    SpanAtShift(p, s, i);
    TokenOfShift(p, s, sp);
  }

  /** One step of the pass through a prefix where a placeholder matches. */
  lemma ShiftMatchedStep(p: string, s: string, i: nat, sp: Span, vars: map<string, string>, reg: Registry)
    requires i < |s| && SpanAt(s, i) == Some(sp)
    requires ApplyFrom(p + s, |p| + sp.end, vars, reg) == ApplyFrom(s, sp.end, vars, reg)
    ensures ApplyFrom(p + s, |p| + i, vars, reg) == ApplyFrom(s, i, vars, reg)
  {
    ShiftedMatch(p, s, i, sp);
    MatchedAlike(p + s, |p| + i, Span(|p| + sp.a, |p| + sp.b, |p| + sp.c, |p| + sp.end), |p| + sp.end, s, i, sp, vars, reg);
  }

  lemma ShiftUnmatchedStep(p: string, s: string, i: nat, vars: map<string, string>, reg: Registry)
    requires i < |s| && SpanAt(s, i).None?
    requires ApplyFrom(p + s, |p| + i + 1, vars, reg) == ApplyFrom(s, i + 1, vars, reg)
    ensures ApplyFrom(p + s, |p| + i, vars, reg) == ApplyFrom(s, i, vars, reg)
  {
    SpanAtShift(p, s, i);
    assert (p + s)[|p| + i] == s[i];
    ApplyUnmatched(p + s, |p| + i, vars, reg);
    ApplyUnmatched(s, i, vars, reg);
  }

  /** The pass after a prefix is the pass over what follows it. */
  lemma {:induction false} ApplyFromShift(p: string, s: string, i: nat, vars: map<string, string>, reg: Registry)
    requires i <= |s|
    ensures ApplyFrom(p + s, |p| + i, vars, reg) == ApplyFrom(s, i, vars, reg)
    decreases |s| - i, 1
  {
    if i == |s| {
      ApplyAtEnd(p + s, |p| + i, vars, reg);
      ApplyAtEnd(s, i, vars, reg);
    } else if SpanAt(s, i).Some? {
      ApplyFromShiftMatched(p, s, i, vars, reg);
    } else {
      ApplyFromShift(p, s, i + 1, vars, reg);
      ShiftUnmatchedStep(p, s, i, vars, reg);
    }
  }

  lemma {:induction false} ApplyFromShiftMatched(p: string, s: string, i: nat, vars: map<string, string>, reg: Registry)
    requires i < |s| && SpanAt(s, i).Some?
    ensures ApplyFrom(p + s, |p| + i, vars, reg) == ApplyFrom(s, i, vars, reg)
    decreases |s| - i, 0
  {
    var sp := SpanAt(s, i).value;
    ApplyFromShift(p, s, sp.end, vars, reg);
    ShiftMatchedStep(p, s, i, sp, vars, reg);
  }

  // ---------------------------------------------------------------------
  // Rendering
  // ---------------------------------------------------------------------

  /** The text `.mod` of an optional modifier. */
  function ModifierText(modifier: Option<string>): string
  {
    if modifier.Some? then "." + modifier.value else ""
  }

  /** A placeholder as a template author writes it:
      `{{` padding base `.mod`? padding `}}`. */
  function Spell(sp1: string, base: string, modifier: Option<string>, sp2: string): string
  {
    "{{" + sp1 + base + ModifierText(modifier) + sp2 + "}}"
  }

  predicate WellSpelled(sp1: string, base: string, modifier: Option<string>, sp2: string)
  {
    IsSpaces(sp1) && IsIdent(base) && (modifier.Some? ==> IsIdent(modifier.value)) && IsSpaces(sp2)
  }

  /** The leading `\s*` up to the first character of the base name. */
  lemma {:induction false} LeadRun(s: string, k: nat, j: nat, a: nat, b: nat, c: nat)
    requires k <= j < |s|
    requires forall q :: k <= q < j ==> IsSpace(s[q])
    requires IsWordChar(s[j])
    ensures Lex(s, k, Lead, a, b, c) == Lex(s, j + 1, InBase, j, b, c)
    decreases j - k
  {
    if k < j {
      LeadRun(s, k + 1, j, a, b, c);
    }
  }

  /** The rest of the base name, up to the first character after it. */
  lemma {:induction false} BaseRun(s: string, k: nat, j: nat, a: nat, b: nat, c: nat)
    requires a < k <= j < |s|
    requires forall q :: k <= q < j ==> IsWordChar(s[q])
    requires !IsWordChar(s[j])
    ensures Lex(s, k, InBase, a, b, c)
            == if s[j] == '.' then Lex(s, j + 1, AfterDot, a, j, c) else Lex(s, j, Trail, a, j, j)
    decreases j - k
  {
    if k < j {
      BaseRun(s, k + 1, j, a, b, c);
    }
  }

  /** The rest of the modifier name, up to the first character after it. */
  lemma {:induction false} ModifierRun(s: string, k: nat, j: nat, a: nat, b: nat, c: nat)
    requires a < b && b + 2 <= k <= j < |s|
    requires forall q :: k <= q < j ==> IsWordChar(s[q])
    requires !IsWordChar(s[j])
    ensures Lex(s, k, InModifier, a, b, c) == Lex(s, j, Trail, a, b, j)
    decreases j - k
  {
    if k < j {
      ModifierRun(s, k + 1, j, a, b, c);
    }
  }

  /** The trailing `\s*` and the closing `}}`. */
  lemma {:induction false} TrailRun(s: string, k: nat, j: nat, a: nat, b: nat, c: nat)
    requires PhaseOk(k, Trail, a, b, c) && k <= j && j + 1 < |s|
    requires forall q :: k <= q < j ==> IsSpace(s[q])
    requires s[j] == '}' && s[j + 1] == '}'
    ensures Lex(s, k, Trail, a, b, c) == Some(Span(a, b, c, j + 2))
    decreases j - k
  {
    if k < j {
      TrailRun(s, k + 1, j, a, b, c);
    }
  }

  /** Where the parts of a spelled placeholder lie. */
  function SpellSpan(sp1: string, base: string, modifier: Option<string>, sp2: string): Span
  {
    Span(2 + |sp1|, 2 + |sp1| + |base|, 2 + |sp1| + |base| + |ModifierText(modifier)|,
         2 + |sp1| + |base| + |ModifierText(modifier)| + |sp2| + 2)
  }

  /** A spelled placeholder followed by more text, associated to the right so
      that each part is reached by peeling one piece off the front. */
  function Chain(sp1: string, base: string, modifier: Option<string>, sp2: string, rest: string): string
  {
    "{{" + (sp1 + (base + (ModifierText(modifier) + (sp2 + ("}}" + rest)))))
  }

  lemma SpellChain(sp1: string, base: string, modifier: Option<string>, sp2: string, rest: string)
    ensures Spell(sp1, base, modifier, sp2) + rest == Chain(sp1, base, modifier, sp2, rest)
    ensures |Spell(sp1, base, modifier, sp2)| == SpellSpan(sp1, base, modifier, sp2).end
  {
    var m := ModifierText(modifier);
    AppendAssoc("{{" + sp1 + base + m + sp2, "}}", rest);
    AppendAssoc("{{" + sp1 + base + m, sp2, "}}" + rest);
    AppendAssoc("{{" + sp1 + base, m, sp2 + ("}}" + rest));
    AppendAssoc("{{" + sp1, base, m + (sp2 + ("}}" + rest)));
    AppendAssoc("{{", sp1, base + (m + (sp2 + ("}}" + rest))));
  }

  /** Whitespace from `i` to `j`. */
  predicate SpacesIn(s: string, i: nat, j: nat)
    requires i <= j <= |s|
  {
    forall q :: i <= q < j ==> IsSpace(s[q])
  }

  /** Identifier characters from `i` to `j`. */
  predicate WordsIn(s: string, i: nat, j: nat)
    requires i <= j <= |s|
  {
    forall q :: i <= q < j ==> IsWordChar(s[q])
  }

  lemma SpacesFront(x: string, y: string, i: nat, j: nat)
    requires i <= j <= |y| && SpacesIn(y, i, j)
    ensures SpacesIn(x + y, |x| + i, |x| + j)
  {
    forall q | |x| + i <= q < |x| + j
      ensures IsSpace((x + y)[q])
    {
      assert (x + y)[q] == y[q - |x|];
    }
  }

  lemma SpacesBack(x: string, y: string, i: nat, j: nat)
    requires i <= j <= |x| && SpacesIn(x, i, j)
    ensures SpacesIn(x + y, i, j)
  {
    forall q | i <= q < j
      ensures IsSpace((x + y)[q])
    {
      assert (x + y)[q] == x[q];
    }
  }

  lemma WordsFront(x: string, y: string, i: nat, j: nat)
    requires i <= j <= |y| && WordsIn(y, i, j)
    ensures WordsIn(x + y, |x| + i, |x| + j)
  {
    forall q | |x| + i <= q < |x| + j
      ensures IsWordChar((x + y)[q])
    {
      assert (x + y)[q] == y[q - |x|];
    }
  }

  lemma WordsBack(x: string, y: string, i: nat, j: nat)
    requires i <= j <= |x| && WordsIn(x, i, j)
    ensures WordsIn(x + y, i, j)
  {
    forall q | i <= q < j
      ensures IsWordChar((x + y)[q])
    {
      assert (x + y)[q] == x[q];
    }
  }

  lemma SliceFront(x: string, y: string, i: nat, j: nat)
    requires i <= j <= |x|
    ensures (x + y)[i..j] == x[i..j]
  {
  }

  /** The characters of a placeholder at the start of `s`: `{{`, padding up
      to `a`, the base name up to `b`, the modifier (with its dot) up to `c`,
      padding up to `d`, and `}}`. */
  predicate PlaceholderAt(s: string, a: nat, b: nat, c: nat, d: nat)
  {
    2 <= a < b <= c <= d && d + 2 <= |s| && (c == b || b + 2 <= c) &&
    s[0] == '{' && s[1] == '{' && SpacesIn(s, 2, a) && WordsIn(s, a, b) &&
    !IsWordChar(s[b]) && (c == b <==> s[b] != '.') &&
    (c != b ==> WordsIn(s, b + 1, c)) &&
    !IsWordChar(s[c]) && SpacesIn(s, c, d) && s[d] == '}' && s[d + 1] == '}'
  }

  /** The automaton matches such a placeholder whole. */
  lemma MatchAt(s: string, a: nat, b: nat, c: nat, d: nat)
    requires PlaceholderAt(s, a, b, c, d)
    ensures SpanAt(s, 0) == Some(Span(a, b, c, d + 2))
  {
    LeadRun(s, 2, a, 2, 2, 2);
    BaseRun(s, a + 1, b, a, 2, 2);
    if c == b {
      TrailRun(s, b, d, a, b, b);
    } else {
      assert IsWordChar(s[b + 1]);
      ModifierRun(s, b + 2, c, a, b, 2);
      TrailRun(s, c, d, a, b, c);
    }
  }

  /** The padding and the names of a spelled placeholder, one piece at a time. */
  lemma ChainRuns(sp1: string, base: string, modifier: Option<string>, sp2: string, rest: string)
    requires WellSpelled(sp1, base, modifier, sp2)
    ensures SpacesIn(Chain(sp1, base, modifier, sp2, rest), 2, 2 + |sp1|)
    ensures WordsIn(Chain(sp1, base, modifier, sp2, rest), 2 + |sp1|, 2 + |sp1| + |base|)
    ensures modifier.Some? ==>
              WordsIn(Chain(sp1, base, modifier, sp2, rest), 2 + |sp1| + |base| + 1, 2 + |sp1| + |base| + |ModifierText(modifier)|)
    ensures SpacesIn(Chain(sp1, base, modifier, sp2, rest), 2 + |sp1| + |base| + |ModifierText(modifier)|,
                     2 + |sp1| + |base| + |ModifierText(modifier)| + |sp2|)
  {
    var m := ModifierText(modifier);
    var w := sp2 + ("}}" + rest);
    var u := m + w;
    var t := base + u;
    SpacesBack(sp1, t, 0, |sp1|);
    SpacesFront("{{", sp1 + t, 0, |sp1|);
    WordsBack(base, u, 0, |base|);
    WordsFront(sp1, t, 0, |base|);
    WordsFront("{{", sp1 + t, |sp1|, |sp1| + |base|);
    if modifier.Some? {
      var v := modifier.value;
      WordsFront(".", v, 0, |v|);
      WordsBack("." + v, w, 1, 1 + |v|);
      WordsFront(base, u, 1, 1 + |v|);
      WordsFront(sp1, t, |base| + 1, |base| + 1 + |v|);
      WordsFront("{{", sp1 + t, |sp1| + |base| + 1, |sp1| + |base| + 1 + |v|);
    }
    SpacesBack(sp2, "}}" + rest, 0, |sp2|);
    SpacesFront(m, w, 0, |sp2|);
    SpacesFront(base, u, |m|, |m| + |sp2|);
    SpacesFront(sp1, t, |base| + |m|, |base| + |m| + |sp2|);
    SpacesFront("{{", sp1 + t, |sp1| + |base| + |m|, |sp1| + |base| + |m| + |sp2|);
  }

  /** The characters that delimit the parts of a spelled placeholder. */
  lemma ChainMarks(sp1: string, base: string, modifier: Option<string>, sp2: string, rest: string)
    requires WellSpelled(sp1, base, modifier, sp2)
    ensures 2 + |sp1| + |base| + |ModifierText(modifier)| + |sp2| + 1 < |Chain(sp1, base, modifier, sp2, rest)|
    ensures Chain(sp1, base, modifier, sp2, rest)[0] == '{' && Chain(sp1, base, modifier, sp2, rest)[1] == '{'
    ensures !IsWordChar(Chain(sp1, base, modifier, sp2, rest)[2 + |sp1| + |base|])
    ensures Chain(sp1, base, modifier, sp2, rest)[2 + |sp1| + |base|] == '.' <==> modifier.Some?
    ensures !IsWordChar(Chain(sp1, base, modifier, sp2, rest)[2 + |sp1| + |base| + |ModifierText(modifier)|])
    ensures Chain(sp1, base, modifier, sp2, rest)[2 + |sp1| + |base| + |ModifierText(modifier)| + |sp2|] == '}'
    ensures Chain(sp1, base, modifier, sp2, rest)[2 + |sp1| + |base| + |ModifierText(modifier)| + |sp2| + 1] == '}'
  {
    var s := Chain(sp1, base, modifier, sp2, rest);
    var m := ModifierText(modifier);
    var w := sp2 + ("}}" + rest);
    var u := m + w;
    var t := base + u;
    var c := 2 + |sp1| + |base| + |m|;
    assert s[2 + |sp1| + |base|] == (sp1 + t)[|sp1| + |base|] == t[|base|] == u[0];
    assert s[c] == (sp1 + t)[|sp1| + |base| + |m|] == u[|m|] == w[0];
    assert sp2 != [] ==> w[0] == sp2[0];
    assert s[c + |sp2|] == (sp1 + t)[|sp1| + |base| + |m| + |sp2|] == u[|m| + |sp2|] == w[|sp2|] == '}';
    assert s[c + |sp2| + 1] == (sp1 + t)[|sp1| + |base| + |m| + |sp2| + 1] == u[|m| + |sp2| + 1] == w[|sp2| + 1] == '}';
  }

  /** A spelled placeholder has the characters the automaton expects. */
  lemma ChainFacts(sp1: string, base: string, modifier: Option<string>, sp2: string, rest: string)
    requires WellSpelled(sp1, base, modifier, sp2)
    ensures PlaceholderAt(Chain(sp1, base, modifier, sp2, rest), 2 + |sp1|, 2 + |sp1| + |base|,
                          2 + |sp1| + |base| + |ModifierText(modifier)|,
                          2 + |sp1| + |base| + |ModifierText(modifier)| + |sp2|)
  {
    ChainRuns(sp1, base, modifier, sp2, rest);
    ChainMarks(sp1, base, modifier, sp2, rest);
  }

  /** The names a spelled placeholder carries. */
  lemma ChainToken(sp1: string, base: string, modifier: Option<string>, sp2: string, rest: string)
    requires WellSpelled(sp1, base, modifier, sp2)
    ensures SpellSpan(sp1, base, modifier, sp2).end <= |Chain(sp1, base, modifier, sp2, rest)|
    ensures TokenOf(Chain(sp1, base, modifier, sp2, rest), SpellSpan(sp1, base, modifier, sp2)) == Token(base, modifier)
  {
    var m := ModifierText(modifier);
    var w := sp2 + ("}}" + rest);
    var u := m + w;
    var t := base + u;
    SliceFront(base, u, 0, |base|);
    SliceShift(sp1, t, 0, |base|);
    SliceShift("{{", sp1 + t, |sp1|, |sp1| + |base|);
    if modifier.Some? {
      var v := modifier.value;
      SliceShift(".", v, 0, |v|);
      SliceFront("." + v, w, 1, 1 + |v|);
      SliceShift(base, u, 1, 1 + |v|);
      SliceShift(sp1, t, |base| + 1, |base| + 1 + |v|);
      SliceShift("{{", sp1 + t, |sp1| + |base| + 1, |sp1| + |base| + 1 + |v|);
    }
  }

  /** The automaton matches a spelled placeholder whole. */
  lemma ChainMatch(sp1: string, base: string, modifier: Option<string>, sp2: string, rest: string)
    requires WellSpelled(sp1, base, modifier, sp2)
    ensures SpanAt(Chain(sp1, base, modifier, sp2, rest), 0) == Some(SpellSpan(sp1, base, modifier, sp2))
  {
    var m := ModifierText(modifier);
    ChainFacts(sp1, base, modifier, sp2, rest);
    MatchAt(Chain(sp1, base, modifier, sp2, rest), 2 + |sp1|, 2 + |sp1| + |base|, 2 + |sp1| + |base| + |m|,
            2 + |sp1| + |base| + |m| + |sp2|);
  }

  /** A well-spelled placeholder at the start of the text is matched whole,
      and the match carries its base name and modifier. */
  lemma MatchSpelled(sp1: string, base: string, modifier: Option<string>, sp2: string, rest: string)
    requires WellSpelled(sp1, base, modifier, sp2)
    ensures SpanAt(Spell(sp1, base, modifier, sp2) + rest, 0) == Some(SpellSpan(sp1, base, modifier, sp2))
    ensures SpellSpan(sp1, base, modifier, sp2).end == |Spell(sp1, base, modifier, sp2)|
    ensures TokenOf(Spell(sp1, base, modifier, sp2) + rest, SpellSpan(sp1, base, modifier, sp2)) == Token(base, modifier)
  {
    SpellChain(sp1, base, modifier, sp2, rest);
    ChainMatch(sp1, base, modifier, sp2, rest);
    ChainToken(sp1, base, modifier, sp2, rest);
  }

  /** The three outcomes of resolving a placeholder. */
  lemma ResolveCases(t: Token, vars: map<string, string>, reg: Registry)
    ensures t.base !in vars ==> Resolve(t, vars, reg) == []
    ensures t.base in vars && t.modifier.Some? && IndexOf(reg, t.modifier.value).Some? ==>
              Resolve(t, vars, reg) == reg[IndexOf(reg, t.modifier.value).value].transform(vars[t.base])
    ensures t.base in vars && (t.modifier.None? || IndexOf(reg, t.modifier.value).None?) ==>
              Resolve(t, vars, reg) == vars[t.base]
  {
  }

  /** A match that covers exactly the prefix `p` is replaced and the pass
      goes on with what follows `p`. */
  lemma ApplyPrefixMatch(p: string, rest: string, sp: Span, vars: map<string, string>, reg: Registry)
    requires SpanAt(p + rest, 0) == Some(sp) && sp.end == |p|
    ensures ApplyTemplate(p + rest, vars, reg) == Resolve(TokenOf(p + rest, sp), vars, reg) + ApplyTemplate(rest, vars, reg)
  {
    ApplyMatched(p + rest, 0, sp, vars, reg);
    ApplyFromShift(p, rest, 0, vars, reg);
  }

  /** A placeholder at the start of the text is replaced by its resolution
      and the pass resumes right after it, so the replacement is never
      rescanned. */
  lemma ApplySpelledResolve(sp1: string, base: string, modifier: Option<string>, sp2: string, rest: string,
                            vars: map<string, string>, reg: Registry)
    requires WellSpelled(sp1, base, modifier, sp2)
    ensures ApplyTemplate(Spell(sp1, base, modifier, sp2) + rest, vars, reg)
            == Resolve(Token(base, modifier), vars, reg) + ApplyTemplate(rest, vars, reg)
  {
    MatchSpelled(sp1, base, modifier, sp2, rest);
    ApplyPrefixMatch(Spell(sp1, base, modifier, sp2), rest, SpellSpan(sp1, base, modifier, sp2), vars, reg);
  }

  /** How a placeholder at the start of the text is replaced: a missing base
      gives the empty string, a registered modifier is applied to the value,
      and no modifier or an unregistered one leaves the value unchanged. */
  lemma ApplySpelled(sp1: string, base: string, modifier: Option<string>, sp2: string, rest: string,
                     vars: map<string, string>, reg: Registry)
    requires WellSpelled(sp1, base, modifier, sp2)
    ensures base !in vars ==>
              ApplyTemplate(Spell(sp1, base, modifier, sp2) + rest, vars, reg) == ApplyTemplate(rest, vars, reg)
    ensures base in vars && modifier.Some? && IndexOf(reg, modifier.value).Some? ==>
              ApplyTemplate(Spell(sp1, base, modifier, sp2) + rest, vars, reg)
              == reg[IndexOf(reg, modifier.value).value].transform(vars[base]) + ApplyTemplate(rest, vars, reg)
    ensures base in vars && (modifier.None? || IndexOf(reg, modifier.value).None?) ==>
              ApplyTemplate(Spell(sp1, base, modifier, sp2) + rest, vars, reg)
              == vars[base] + ApplyTemplate(rest, vars, reg)
  {
    ApplySpelledResolve(sp1, base, modifier, sp2, rest, vars, reg);
    ResolveCases(Token(base, modifier), vars, reg);
  }

  lemma {:induction false} ApplyFromBraceFree(p: string, rest: string, i: nat, vars: map<string, string>, reg: Registry)
    requires i <= |p|
    requires forall k :: 0 <= k < |p| ==> p[k] != '{'
    ensures ApplyFrom(p + rest, i, vars, reg) == p[i..] + ApplyTemplate(rest, vars, reg)
    decreases |p| - i
  {
    if i == |p| {
      ApplyFromShift(p, rest, 0, vars, reg);
      assert p[i..] == [];
    } else {
      assert (p + rest)[i] == p[i];
      ApplyUnmatched(p + rest, i, vars, reg);
      ApplyFromBraceFree(p, rest, i + 1, vars, reg);
      assert p[i..] == [p[i]] + p[i + 1..];
    }
  }

  /** Text without an opening brace is copied through unchanged. */
  lemma ApplyBraceFreePrefix(p: string, rest: string, vars: map<string, string>, reg: Registry)
    requires forall k :: 0 <= k < |p| ==> p[k] != '{'
    ensures ApplyTemplate(p + rest, vars, reg) == p + ApplyTemplate(rest, vars, reg)
  {
    ApplyFromBraceFree(p, rest, 0, vars, reg);
  }

  /** One copied character, the rest of the pass having copied its text. */
  lemma CopyStep(s: string, i: nat, vars: map<string, string>, reg: Registry)
    requires i < |s| && SpanAt(s, i).None? && ApplyFrom(s, i + 1, vars, reg) == s[i + 1..]
    ensures ApplyFrom(s, i, vars, reg) == s[i..]
  {
    ApplyUnmatched(s, i, vars, reg);
    assert s[i..] == [s[i]] + s[i + 1..];
  }

  lemma {:induction false} ApplyFromNoToken(s: string, i: nat, vars: map<string, string>, reg: Registry)
    requires i <= |s|
    requires forall j: nat :: !TokenAt(s, j)
    ensures ApplyFrom(s, i, vars, reg) == s[i..]
    decreases |s| - i
  {
    if i < |s| {
      assert !TokenAt(s, i);
      ApplyFromNoToken(s, i + 1, vars, reg);
      CopyStep(s, i, vars, reg);
    }
  }

  /** A text in which no placeholder matches anywhere comes back unchanged,
      whatever the variables. */
  lemma NoTokenUnchanged(s: string, vars: map<string, string>, reg: Registry)
    requires forall j: nat :: !TokenAt(s, j)
    ensures ApplyTemplate(s, vars, reg) == s
  {
    ApplyFromNoToken(s, 0, vars, reg);
  }

  /** Two variable maps agree on the names in `bases`. */
  predicate AgreeOn(v1: map<string, string>, v2: map<string, string>, bases: set<string>)
  {
    forall b :: b in bases ==> (b in v1 <==> b in v2) && (b in v1 ==> v1[b] == v2[b])
  }

  lemma {:induction false} ApplyFromAgree(s: string, i: nat, v1: map<string, string>, v2: map<string, string>, reg: Registry)
    requires i <= |s| && AgreeOn(v1, v2, BasesFrom(s, i))
    ensures ApplyFrom(s, i, v1, reg) == ApplyFrom(s, i, v2, reg)
    decreases |s| - i
  {
    if i < |s| {
      if SpanAt(s, i).Some? {
        ApplyFromAgree(s, SpanAt(s, i).value.end, v1, v2, reg);
      } else {
        ApplyFromAgree(s, i + 1, v1, v2, reg);
      }
    }
  }

  /** The output depends on the variables only through the base names of the
      placeholders in the text: keys such as `name.pascalCase` are never
      looked up. */
  lemma ApplyDependsOnlyOnBases(s: string, v1: map<string, string>, v2: map<string, string>, reg: Registry)
    requires AgreeOn(v1, v2, TokenBases(s))
    ensures ApplyTemplate(s, v1, reg) == ApplyTemplate(s, v2, reg)
  {
    ApplyFromAgree(s, 0, v1, v2, reg);
  }
  // ---------------------------------------------------------------------
  // Every match is a spelled placeholder
  // ---------------------------------------------------------------------

  /** The layout read so far after the opening `{{` at `st - 2`: whitespace
      up to the base name, the `.` before a modifier, and whitespace after
      the names. */
  predicate LayoutSoFar(s: string, st: nat, k: nat, ph: Phase, a: nat, b: nat, c: nat)
    requires k <= |s| && PhaseOk(k, ph, a, b, c)
  {
    match ph
    case Lead => st <= k && SpacesIn(s, st, k)
    case InBase => st <= a && SpacesIn(s, st, a)
    case AfterDot => st <= a && SpacesIn(s, st, a) && s[b] == '.'
    case InModifier => st <= a && SpacesIn(s, st, a) && s[b] == '.'
    case Trail => st <= a && SpacesIn(s, st, a) && (c != b ==> s[b] == '.') && SpacesIn(s, c, k)
  }

  /** The layout of a match, when there is one: whitespace from `st` to the
      base name, a `.` before a modifier, whitespace after the names, `}}`. */
  predicate LayoutFound(s: string, st: nat, m: Option<Span>)
    requires m.Some? ==> SpanOk(s, m.value)
  {
    m.Some? ==>
      st <= m.value.a && SpacesIn(s, st, m.value.a) && (m.value.c != m.value.b ==> s[m.value.b] == '.') &&
      SpacesIn(s, m.value.c, m.value.end - 2) && s[m.value.end - 2] == '}' && s[m.value.end - 1] == '}'
  }

  lemma {:induction false} LexLayout(s: string, st: nat, k: nat, ph: Phase, a: nat, b: nat, c: nat)
    requires k <= |s| && PhaseOk(k, ph, a, b, c) && LayoutSoFar(s, st, k, ph, a, b, c)
    ensures LayoutFound(s, st, Lex(s, k, ph, a, b, c))
    decreases |s| - k, PhaseRank(ph), 1
  {
    if k < |s| {
      match ph
      case Lead => LexLayoutLead(s, st, k, a, b, c);
      case InBase => LexLayoutBase(s, st, k, a, b, c);
      case AfterDot => LexLayoutDot(s, st, k, a, b, c);
      case InModifier => LexLayoutModifier(s, st, k, a, b, c);
      case Trail => LexLayoutTrail(s, st, k, a, b, c);
    }
  }

  lemma {:induction false} LexLayoutLead(s: string, st: nat, k: nat, a: nat, b: nat, c: nat)
    requires k < |s| && st <= k && SpacesIn(s, st, k)
    ensures LayoutFound(s, st, Lex(s, k, Lead, a, b, c))
    decreases |s| - k, 1, 0
  {
    if IsSpace(s[k]) {
      assert SpacesIn(s, st, k + 1);
      LexLayout(s, st, k + 1, Lead, a, b, c);
    } else if IsWordChar(s[k]) {
      LexLayout(s, st, k + 1, InBase, k, b, c);
    }
  }

  lemma {:induction false} LexLayoutBase(s: string, st: nat, k: nat, a: nat, b: nat, c: nat)
    requires k < |s| && a < k && st <= a && SpacesIn(s, st, a)
    ensures LayoutFound(s, st, Lex(s, k, InBase, a, b, c))
    decreases |s| - k, 1, 0
  {
    if IsWordChar(s[k]) { LexLayout(s, st, k + 1, InBase, a, b, c); }
    else if s[k] == '.' { LexLayout(s, st, k + 1, AfterDot, a, k, c); }
    else { LexLayout(s, st, k, Trail, a, k, k); }
  }

  lemma {:induction false} LexLayoutDot(s: string, st: nat, k: nat, a: nat, b: nat, c: nat)
    requires k < |s| && a < b && b + 1 == k && st <= a && SpacesIn(s, st, a) && s[b] == '.'
    ensures LayoutFound(s, st, Lex(s, k, AfterDot, a, b, c))
    decreases |s| - k, 1, 0
  {
    if IsWordChar(s[k]) { LexLayout(s, st, k + 1, InModifier, a, b, c); }
  }

  lemma {:induction false} LexLayoutModifier(s: string, st: nat, k: nat, a: nat, b: nat, c: nat)
    requires k < |s| && a < b && b + 2 <= k && st <= a && SpacesIn(s, st, a) && s[b] == '.'
    ensures LayoutFound(s, st, Lex(s, k, InModifier, a, b, c))
    decreases |s| - k, 1, 0
  {
    if IsWordChar(s[k]) { LexLayout(s, st, k + 1, InModifier, a, b, c); }
    else { LexLayout(s, st, k, Trail, a, b, k); }
  }

  lemma {:induction false} LexLayoutTrail(s: string, st: nat, k: nat, a: nat, b: nat, c: nat)
    requires k < |s| && PhaseOk(k, Trail, a, b, c) && st <= a && SpacesIn(s, st, a)
    requires (c != b ==> s[b] == '.') && SpacesIn(s, c, k)
    ensures LayoutFound(s, st, Lex(s, k, Trail, a, b, c))
    decreases |s| - k, 0, 0
  {
    if IsSpace(s[k]) {
      assert SpacesIn(s, c, k + 1);
      LexLayout(s, st, k + 1, Trail, a, b, c);
    }
  }

  lemma SliceConcat(s: string, i: nat, j: nat, k: nat)
    requires i <= j <= k <= |s|
    ensures s[i..k] == s[i..j] + s[j..k]
  {
  }

  lemma SpacesSlice(s: string, i: nat, j: nat)
    requires i <= j <= |s| && SpacesIn(s, i, j)
    ensures IsSpaces(s[i..j])
  {
    assert forall q :: 0 <= q < j - i ==> s[i..j][q] == s[i + q];
  }

  lemma ConcatSteps(whole: string, l4: string, l3: string, l2: string, l1: string,
                    x0: string, x1: string, x2: string, x3: string, x4: string, x5: string)
    requires l1 == x0 + x1 && l2 == l1 + x2 && l3 == l2 + x3 && l4 == l3 + x4 && whole == l4 + x5
    ensures whole == x0 + x1 + x2 + x3 + x4 + x5
  {
  }

  lemma TwoChars(s: string, i: nat)
    requires i + 2 <= |s|
    ensures s[i..i + 2] == [s[i], s[i + 1]]
  {
  }

  /** The modifier part of a match, with its dot. */
  lemma ModifierSlice(s: string, b: nat, c: nat)
    requires b <= c <= |s| && (c != b ==> b < c && s[b] == '.')
    ensures s[b..c] == ModifierText(if c == b then None else Some(s[b + 1..c]))
  {
    if c != b {
      assert s[b..c] == [s[b]] + s[b + 1..c];
    }
  }

  /** The text of a match, cut at its part boundaries. */
  lemma SpelledSlices(s: string, i: nat, a: nat, b: nat, c: nat, d: nat, e: nat)
    requires i + 2 <= a <= b <= c <= d && d + 2 == e <= |s|
    requires s[i] == '{' && s[i + 1] == '{' && s[d] == '}' && s[d + 1] == '}'
    requires c != b ==> b < c && s[b] == '.'
    ensures s[i..e] == Spell(s[i + 2..a], s[a..b], if c == b then None else Some(s[b + 1..c]), s[c..d])
  {
    SliceConcat(s, i, i + 2, a);
    SliceConcat(s, i, a, b);
    SliceConcat(s, i, b, c);
    SliceConcat(s, i, c, d);
    SliceConcat(s, i, d, e);
    ConcatSteps(s[i..e], s[i..d], s[i..c], s[i..b], s[i..a],
                s[i..i + 2], s[i + 2..a], s[a..b], s[b..c], s[c..d], s[d..e]);
    TwoChars(s, i);
    TwoChars(s, d);
    ModifierSlice(s, b, c);
  }

  /** The braces and the layout of the match at `i`. */
  lemma SpanAtLayout(s: string, i: nat)
    requires i <= |s| && SpanAt(s, i).Some?
    ensures s[i] == '{' && s[i + 1] == '{' && LayoutFound(s, i + 2, SpanAt(s, i))
  {
    LexLayout(s, i + 2, i + 2, Lead, i + 2, i + 2, i + 2);
  }

  /** Parts laid out as a match has them spell a placeholder. */
  lemma SpelledSpan(s: string, i: nat, sp: Span, base: string, modifier: Option<string>)
    requires SpanFits(s, i, sp) && s[i] == '{' && s[i + 1] == '{' && LayoutFound(s, i + 2, Some(sp))
    requires base == s[sp.a..sp.b] && modifier == (if sp.c == sp.b then None else Some(s[sp.b + 1..sp.c]))
    requires IsIdent(base) && (modifier.Some? ==> IsIdent(modifier.value))
    ensures WellSpelled(s[i + 2..sp.a], base, modifier, s[sp.c..sp.end - 2])
    ensures s[i..sp.end] == Spell(s[i + 2..sp.a], base, modifier, s[sp.c..sp.end - 2])
  {
    SpanPadding(s, i + 2, sp.a, sp.c, sp.end - 2, base, modifier);
    SpanSpelling(s, i, sp, base, modifier);
  }

  lemma SpanSpelling(s: string, i: nat, sp: Span, base: string, modifier: Option<string>)
    requires SpanFits(s, i, sp) && s[i] == '{' && s[i + 1] == '{' && s[sp.end - 2] == '}' && s[sp.end - 1] == '}'
    requires sp.c != sp.b ==> s[sp.b] == '.'
    requires base == s[sp.a..sp.b] && modifier == (if sp.c == sp.b then None else Some(s[sp.b + 1..sp.c]))
    ensures s[i..sp.end] == Spell(s[i + 2..sp.a], base, modifier, s[sp.c..sp.end - 2])
  {
    SpelledSlices(s, i, sp.a, sp.b, sp.c, sp.end - 2, sp.end);
  }

  lemma SpanPadding(s: string, st: nat, a: nat, c: nat, d: nat, base: string, modifier: Option<string>)
    requires st <= a <= c <= d <= |s| && SpacesIn(s, st, a) && SpacesIn(s, c, d)
    requires IsIdent(base) && (modifier.Some? ==> IsIdent(modifier.value))
    ensures WellSpelled(s[st..a], base, modifier, s[c..d])
  {
    SpacesSlice(s, st, a);
    SpacesSlice(s, c, d);
  }

  /** Every match is a spelled placeholder: `{{`, whitespace, the base name,
      the modifier with its dot when there is one, whitespace and `}}`, with
      the match's own base name and modifier. */
  lemma MatchIsSpelled(s: string, i: nat)
    requires i <= |s| && SpanAt(s, i).Some?
    ensures var sp := SpanAt(s, i).value;
            var t := TokenOf(s, sp);
            WellSpelled(s[i + 2..sp.a], t.base, t.modifier, s[sp.c..sp.end - 2])
    ensures var sp := SpanAt(s, i).value;
            var t := TokenOf(s, sp);
            s[i..sp.end] == Spell(s[i + 2..sp.a], t.base, t.modifier, s[sp.c..sp.end - 2])
  {
    SpanAtNames(s, i);
    SpanAtLayout(s, i);
    var sp := SpanAt(s, i).value;
    SpelledSpan(s, i, sp, TokenOf(s, sp).base, TokenOf(s, sp).modifier);
  }

  /** A well-spelled placeholder with base name `x` starts at position `j`. */
  ghost predicate SpelledWith(s: string, j: nat, x: string)
  {
    exists sp1, modifier, sp2 :: WellSpelled(sp1, x, modifier, sp2) &&
      j + |Spell(sp1, x, modifier, sp2)| <= |s| &&
      s[j..j + |Spell(sp1, x, modifier, sp2)|] == Spell(sp1, x, modifier, sp2)
  }

  /** A well-spelled placeholder at `j`, whatever its base name. */
  ghost predicate SpelledAt(s: string, j: nat)
  {
    exists x :: SpelledWith(s, j, x)
  }

  lemma SplitAround(s: string, j: nat, n: nat)
    requires j + n <= |s|
    ensures s == s[..j] + (s[j..j + n] + s[j + n..])
  {
  }

  /** A match at the start of `u` is a match after any prefix. */
  lemma ShiftedToken(p: string, u: string, sp: Span, x: string)
    requires SpanAt(u, 0) == Some(sp) && TokenOf(u, sp).base == x
    ensures TokenAt(p + u, |p|) && BaseAt(p + u, |p|) == x
  {
    ShiftedMatch(p, u, 0, sp);
  }

  /** A spelled placeholder found inside a text is matched there. */
  lemma SpelledInside(s: string, j: nat, sp1: string, x: string, modifier: Option<string>, sp2: string)
    requires WellSpelled(sp1, x, modifier, sp2)
    requires j + |Spell(sp1, x, modifier, sp2)| <= |s|
    requires s[j..j + |Spell(sp1, x, modifier, sp2)|] == Spell(sp1, x, modifier, sp2)
    ensures TokenAt(s, j) && BaseAt(s, j) == x
  {
    var w := Spell(sp1, x, modifier, sp2);
    SplitAround(s, j, |w|);
    SpelledPrefix(s[..j], w + s[j + |w|..], sp1, x, modifier, sp2, s[j + |w|..]);
  }

  /** A spelled placeholder after a prefix is matched there. */
  lemma SpelledPrefix(p: string, u: string, sp1: string, x: string, modifier: Option<string>, sp2: string, rest: string)
    requires WellSpelled(sp1, x, modifier, sp2) && u == Spell(sp1, x, modifier, sp2) + rest
    ensures TokenAt(p + u, |p|) && BaseAt(p + u, |p|) == x
  {
    MatchSpelled(sp1, x, modifier, sp2, rest);
    ShiftedToken(p, u, SpellSpan(sp1, x, modifier, sp2), x);
  }

  /** The regex matches at `j` with base name `x` exactly when a
      well-spelled placeholder with base name `x` starts at `j`. */
  lemma MatchIffSpelled(s: string, j: nat, x: string)
    requires j <= |s|
    ensures (TokenAt(s, j) && BaseAt(s, j) == x) <==> SpelledWith(s, j, x)
  {
    if TokenAt(s, j) && BaseAt(s, j) == x {
      var sp := SpanAt(s, j).value;
      var t := TokenOf(s, sp);
      MatchIsSpelled(s, j);
      assert |Spell(s[j + 2..sp.a], t.base, t.modifier, s[sp.c..sp.end - 2])| == sp.end - j;
    }
    if SpelledWith(s, j, x) {
      var sp1, modifier, sp2 :| WellSpelled(sp1, x, modifier, sp2) &&
        j + |Spell(sp1, x, modifier, sp2)| <= |s| &&
        s[j..j + |Spell(sp1, x, modifier, sp2)|] == Spell(sp1, x, modifier, sp2);
      SpelledInside(s, j, sp1, x, modifier, sp2);
    }
  }

  /** The regex matches at `j` exactly when a well-spelled placeholder starts there. */
  lemma MatchIffSpelledAt(s: string, j: nat)
    requires j <= |s|
    ensures TokenAt(s, j) <==> SpelledAt(s, j)
  {
    if TokenAt(s, j) {
      MatchIffSpelled(s, j, BaseAt(s, j));
    }
    if SpelledAt(s, j) {
      var x :| SpelledWith(s, j, x);
      MatchIffSpelled(s, j, x);
    }
  }

  /** The pass reports a base name exactly when a well-spelled placeholder
      with that base name occurs in the text. */
  lemma SpelledBasesExact(s: string, x: string)
    ensures x in TokenBases(s) <==> exists j: nat :: j <= |s| && SpelledWith(s, j, x)
  {
    TokenBasesExact(s, x);
    if x in TokenBases(s) {
      var j: nat :| TokenAt(s, j) && BaseAt(s, j) == x;
      MatchIffSpelled(s, j, x);
    }
    if exists j: nat :: j <= |s| && SpelledWith(s, j, x) {
      var j: nat :| j <= |s| && SpelledWith(s, j, x);
      MatchIffSpelled(s, j, x);
    }
  }

  /** A text in which no well-spelled placeholder occurs comes back
      unchanged, whatever the variables. */
  lemma NoPlaceholderUnchanged(s: string, vars: map<string, string>, reg: Registry)
    requires forall j: nat :: j <= |s| ==> !SpelledAt(s, j)
    ensures ApplyTemplate(s, vars, reg) == s
  {
    forall j: nat
      ensures !TokenAt(s, j)
    {
      if j <= |s| {
        MatchIffSpelledAt(s, j);
      }
    }
    NoTokenUnchanged(s, vars, reg);
  }
}
