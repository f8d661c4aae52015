/** The obfuscation normaliser `normalize_text` (app.py:14-27): lower-case the text, then
    apply six regular-expression substitutions in a fixed order. Each substitution is
    modelled as the left-to-right scan that `re.sub` performs for its pattern. */
module Normalizer {
  import opened Chars

  /** One entry of `OBFUSCATED_PATTERNS`: the pattern `\s*token\s*` when `padded` is
      false and `\s+token\s+` when it is true, replaced by the single character
      `replacement`. */
  datatype Rule = Rule(token: string, replacement: char, padded: bool)

  /** `OBFUSCATED_PATTERNS`, in the order in which they are applied. */
  const Obfuscations: seq<Rule> := [
    Rule("[at]", '@', false),
    Rule("(at)", '@', false),
    Rule("at", '@', true),
    Rule("[dot]", '.', false),
    Rule("(dot)", '.', false),
    Rule("dot", '.', true)
  ]

  /** The two characters a substitution can insert. */
  predicate IsMark(c: char) { c == '@' || c == '.' }

  /** What the proofs rely on: a non-empty token made of neither whitespace nor marks,
      replaced by a mark. Every entry of `Obfuscations` is such a rule. */
  predicate ValidRule(r: Rule) {
    && |r.token| > 0
    && IsMark(r.replacement)
    && forall i :: 0 <= i < |r.token| ==> !IsSpace(r.token[i]) && !IsMark(r.token[i])
  }

  predicate AllValid(rules: seq<Rule>) {
    forall i :: 0 <= i < |rules| ==> ValidRule(rules[i])
  }

  lemma ObfuscationsValid()
    ensures AllValid(Obfuscations)
  {
  }

  /** Length of the match of rule `r` at the start of `s`, or 0 when the pattern does not
      match there. The leading and trailing whitespace runs are greedy; giving back
      whitespace can never help, since the token does not start with whitespace. */
  function MatchLen(r: Rule, s: string): (n: nat)
    ensures n <= |s|
  {
    var lead := SpaceRun(s);
    if (r.padded && lead == 0) || !TokenAt(r, s, lead) then 0
    else MatchTail(r, s, lead + |r.token|)
  }

  /** The token of `r` is found at position `p` of `s`. */
  predicate TokenAt(r: Rule, s: string, p: nat) {
    p + |r.token| <= |s| && s[p..p + |r.token|] == r.token
  }

  /** End of the match once the token has been read up to `after`: the trailing run of
      whitespace is taken too, and `\s+` needs at least one character of it. */
  function MatchTail(r: Rule, s: string, after: nat): (n: nat)
    requires after <= |s|
    ensures n <= |s|
  {
    var trail := SpaceRun(s[after..]);
    if r.padded && trail == 0 then 0 else after + trail
  }

  /** `re.sub(pattern, replacement, s)`: scan from the left; where the pattern matches,
      emit the replacement and resume after the match, otherwise keep one character. */
  function Rewrite(r: Rule, s: string): string
    decreases |s|
  {
    if s == [] then []
    else [Emitted(r, s)] + Rewrite(r, s[Consumed(r, s)..])
  }

  /** How many characters one step of the scan consumes: the match, or one kept character. */
  function Consumed(r: Rule, s: string): (k: nat)
    requires s != []
    ensures 0 < k <= |s|
  {
    var n := MatchLen(r, s);
    if n == 0 then 1 else n
  }

  /** The character one step of the scan emits: the replacement, or the kept character. */
  function Emitted(r: Rule, s: string): char
    requires s != []
  {
    if MatchLen(r, s) == 0 then s[0] else r.replacement
  }

  /** A substitution never lengthens the text: each match is replaced by one character. */
  lemma {:induction false} RewriteShorter(r: Rule, s: string)
    ensures |Rewrite(r, s)| <= |s|
    decreases |s|
  {
    if s != [] {
      RewriteShorter(r, s[Consumed(r, s)..]);
    }
  }

  /** The substitutions applied one after another, as the loop at app.py:25-26 does. */
  function ApplyAll(rules: seq<Rule>, s: string): (t: string)
    ensures |t| <= |s|
    decreases |rules|
  {
    if rules == [] then s
    else
      RewriteShorter(rules[0], s);
      ApplyAll(rules[1..], Rewrite(rules[0], s))
  }

  /** `normalize_text`. */
  function Normalize(text: string): (t: string)
    ensures |t| <= |text|
  {
    ApplyAll(Obfuscations, Lower(text))
  }

  /** `normalize_text` as the source writes it: a loop that reassigns `text` once per pattern. */
  method NormalizeText(text: string) returns (r: string)
    ensures r == Normalize(text)
    ensures NoUpper(r)
    ensures forall i :: 0 <= i < |Obfuscations| ==> Clean(Obfuscations[i], r)
  {
    r := Lower(text);
    for i := 0 to |Obfuscations|
      invariant ApplyAll(Obfuscations[i..], r) == Normalize(text)
    {
      assert Obfuscations[i..][1..] == Obfuscations[i + 1..];
      r := Rewrite(Obfuscations[i], r);
    }
    assert Obfuscations[|Obfuscations|..] == [];
    NormalizeClean(text);
  }

  // ---------------------------------------------------------------------------
  // Occurrences of a rule's shortest match

  /** Length of the shortest text the pattern of `r` matches. */
  function KeyLen(r: Rule): nat {
    if r.padded then |r.token| + 2 else |r.token|
  }

  /** The shortest match of `r` starts at position `p` of `s`: the bare token for
      `\s*token\s*`, one whitespace character on each side of it for `\s+token\s+`. */
  predicate OccursAt(r: Rule, s: string, p: nat) {
    && p + KeyLen(r) <= |s|
    && if r.padded then
         IsSpace(s[p]) && s[p + 1..p + 1 + |r.token|] == r.token && IsSpace(s[p + 1 + |r.token|])
       else
         s[p..p + |r.token|] == r.token
  }

  /** `s` contains nothing the pattern of `r` could match. */
  predicate Clean(r: Rule, s: string) {
    forall p :: 0 <= p < |s| ==> !OccursAt(r, s, p)
  }

  lemma OccursShift(r: Rule, s: string, k: nat, p: nat)
    requires k <= |s|
    ensures OccursAt(r, s[k..], p) <==> OccursAt(r, s, p + k)
  {
    if p + KeyLen(r) <= |s| - k {
      if r.padded {
        assert s[k..][p + 1..p + 1 + |r.token|] == s[p + k + 1..p + k + 1 + |r.token|];
      } else {
        assert s[k..][p..p + |r.token|] == s[p + k..p + k + |r.token|];
      }
    }
  }

  lemma CleanSuffix(r: Rule, s: string, k: nat)
    requires k <= |s| && Clean(r, s)
    ensures Clean(r, s[k..])
  {
    forall p | 0 <= p < |s[k..]| ensures !OccursAt(r, s[k..], p) {
      OccursShift(r, s, k, p);
    }
  }

  /** Whether the shortest match starts at 0 depends only on the first `KeyLen` characters. */
  lemma OccursPrefix(r: Rule, w: string, v: string)
    requires KeyLen(r) <= |w| && KeyLen(r) <= |v|
    requires w[..KeyLen(r)] == v[..KeyLen(r)]
    requires OccursAt(r, w, 0)
    ensures OccursAt(r, v, 0)
  {
    var L := KeyLen(r);
    assert forall i :: 0 <= i < L ==> w[i] == w[..L][i] == v[..L][i] == v[i];
    if r.padded {
      assert v[1..1 + |r.token|] == w[1..1 + |r.token|];
    } else {
      assert v[..|r.token|] == w[..|r.token|];
    }
  }

  /** A shortest match contains no mark. */
  lemma OccursNoMark(r: Rule, s: string, p: nat)
    requires ValidRule(r) && OccursAt(r, s, p)
    ensures forall i :: p <= i < p + KeyLen(r) ==> !IsMark(s[i])
  {
    forall i | p <= i < p + KeyLen(r) ensures !IsMark(s[i]) {
      if r.padded {
        if p < i < p + 1 + |r.token| {
          assert s[i] == s[p + 1..p + 1 + |r.token|][i - p - 1];
        }
      } else {
        assert s[i] == s[p..p + |r.token|][i - p];
      }
    }
  }

  /** A shortest match at 0 makes the pattern match at 0. */
  lemma OccursImpliesMatch(r: Rule, s: string)
    requires ValidRule(r) && OccursAt(r, s, 0)
    ensures MatchLen(r, s) > 0
  {
    var t := |r.token|;
    if r.padded {
      assert s[1] == s[1..1 + t][0];
      assert s == s[..1] + s[1..];
      SpaceRunOf(s[..1], s[1..]);
      assert s[1 + t..][0] == s[1 + t];
    } else {
      assert s[0] == s[..t][0];
      SpaceRunOf([], s);
    }
  }

  /** Where the pattern matches, a shortest match starts within it. */
  lemma MatchImpliesOccurs(r: Rule, s: string)
    requires ValidRule(r) && MatchLen(r, s) > 0
    ensures r.padded ==> SpaceRun(s) > 0 && OccursAt(r, s, SpaceRun(s) - 1)
    ensures !r.padded ==> OccursAt(r, s, SpaceRun(s))
  {
    var lead := SpaceRun(s);
    var after := lead + |r.token|;
    if r.padded {
      assert s[lead - 1] == s[..lead][lead - 1];
      var trail := SpaceRun(s[after..]);
      assert s[after] == s[after..][..trail][0];
    }
  }

  /** A rule whose pattern occurs nowhere does not match anywhere. */
  lemma CleanNoMatch(r: Rule, s: string)
    requires ValidRule(r) && Clean(r, s)
    ensures MatchLen(r, s) == 0
  {
    if MatchLen(r, s) > 0 {
      MatchImpliesOccurs(r, s);
    }
  }

  /** Where the pattern does not match, the scan keeps one character. */
  lemma StepUnmatched(r: Rule, s: string)
    requires s != [] && MatchLen(r, s) == 0
    ensures Rewrite(r, s) == [s[0]] + Rewrite(r, s[1..])
  {
    assert Consumed(r, s) == 1 && Emitted(r, s) == s[0];
  }

  /** A scan step that does not emit the replacement keeps one character. */
  lemma StepKept(r: Rule, t: string)
    requires t != [] && Rewrite(r, t)[0] != r.replacement
    ensures Rewrite(r, t) == [t[0]] + Rewrite(r, t[1..])
  {
    assert Rewrite(r, t) == [Emitted(r, t)] + Rewrite(r, t[Consumed(r, t)..]);
  }

  /** Up to the first replacement it emits, `Rewrite` copies its input. */
  lemma {:induction false} PrefixKept(r: Rule, t: string, k: nat)
    requires k <= |Rewrite(r, t)|
    requires forall i :: 0 <= i < k ==> Rewrite(r, t)[i] != r.replacement
    ensures k <= |t|
    ensures forall i :: 0 <= i < k ==> Rewrite(r, t)[i] == t[i]
    decreases |t|
  {
    if k > 0 {
      StepKept(r, t);
      var tail := Rewrite(r, t[1..]);
      assert forall i :: 0 <= i < k - 1 ==> tail[i] == Rewrite(r, t)[i + 1];
      PrefixKept(r, t[1..], k - 1);
    }
  }

  // ---------------------------------------------------------------------------
  // What a substitution leaves behind

  /** After `Rewrite(r, _)` nothing matches `r` any more, and text that nothing matched for
      another rule `q` is still clean for `q`: the only characters a substitution brings
      together are separated by the mark it inserts, and no pattern contains a mark. */
  lemma {:induction false} RewriteKeepsClean(r: Rule, q: Rule, s: string)
    requires ValidRule(r) && ValidRule(q)
    requires q == r || Clean(q, s)
    ensures Clean(q, Rewrite(r, s))
    decreases |s|
  {
    if s != [] {
      var k := Consumed(r, s);
      var t := Rewrite(r, s[k..]);
      var out := Rewrite(r, s);
      assert out == [Emitted(r, s)] + t;
      if q != r {
        CleanSuffix(q, s, k);
      }
      RewriteKeepsClean(r, q, s[k..]);
      forall p | 0 <= p < |out| ensures !OccursAt(q, out, p) {
        if p > 0 {
          assert out[1..] == t;
          OccursShift(q, out, 1, p - 1);
        } else {
          HeadClean(r, q, s);
        }
      }
    }
  }

  /** The first step of the scan does not start a new occurrence. */
  lemma HeadClean(r: Rule, q: Rule, s: string)
    requires ValidRule(r) && ValidRule(q) && s != []
    requires q == r || Clean(q, s)
    ensures !OccursAt(q, Rewrite(r, s), 0)
  {
    var out := Rewrite(r, s);
    if OccursAt(q, out, 0) {
      KeptPrefix(r, q, s);
      OccursPrefix(q, out, s);
      if q == r {
        OccursImpliesMatch(r, s);
        OccursNoMark(q, out, 0);
      }
    }
  }

  /** An occurrence at the start of the output is copied from the start of the input:
      it holds no mark, so the scan emitted no replacement inside it. */
  lemma KeptPrefix(r: Rule, q: Rule, s: string)
    requires ValidRule(r) && ValidRule(q) && s != []
    requires OccursAt(q, Rewrite(r, s), 0)
    ensures KeyLen(q) <= |s| && Rewrite(r, s)[..KeyLen(q)] == s[..KeyLen(q)]
  {
    var out := Rewrite(r, s);
    var L := KeyLen(q);
    OccursNoMark(q, out, 0);
    KeptChars(r, s, L);
    SamePrefix(out, s, L);
  }

  /** The first `k` characters of the output, none of them a replacement, are those of the
      input. */
  lemma KeptChars(r: Rule, s: string, k: nat)
    requires ValidRule(r) && s != [] && 0 < k <= |Rewrite(r, s)|
    requires forall i :: 0 <= i < k ==> !IsMark(Rewrite(r, s)[i])
    ensures k <= |s| && forall i :: 0 <= i < k ==> Rewrite(r, s)[i] == s[i]
  {
    var out := Rewrite(r, s);
    StepKept(r, s);
    var tail := Rewrite(r, s[1..]);
    assert forall i :: 0 <= i < k - 1 ==> tail[i] == out[i + 1];
    PrefixKept(r, s[1..], k - 1);
  }

  lemma SamePrefix(a: string, b: string, k: nat)
    requires k <= |a| && k <= |b| && forall i :: 0 <= i < k ==> a[i] == b[i]
    ensures a[..k] == b[..k]
  {
  }

  /** A substitution changes nothing in text its pattern does not occur in. */
  lemma {:induction false} RewriteIdentity(r: Rule, s: string)
    requires ValidRule(r) && Clean(r, s)
    ensures Rewrite(r, s) == s
    decreases |s|
  {
    if s != [] {
      CleanNoMatch(r, s);
      StepUnmatched(r, s);
      CleanSuffix(r, s, 1);
      RewriteIdentity(r, s[1..]);
    }
  }

  /** A substitution inserts only marks, so it cannot create an upper-case letter. */
  lemma {:induction false} RewriteNoUpper(r: Rule, s: string)
    requires ValidRule(r) && NoUpper(s)
    ensures NoUpper(Rewrite(r, s))
    decreases |s|
  {
    if s != [] {
      var k := Consumed(r, s);
      RewriteNoUpper(r, s[k..]);
      assert Rewrite(r, s) == [Emitted(r, s)] + Rewrite(r, s[k..]);
    }
  }

  /** How `MatchLen` is assembled from its three parts. */
  lemma MatchLenFrom(r: Rule, s: string, lead: nat, n: nat)
    requires SpaceRun(s) == lead && (r.padded ==> lead > 0) && TokenAt(r, s, lead)
    requires MatchTail(r, s, lead + |r.token|) == n
    ensures MatchLen(r, s) == n
  {
  }

  lemma LeadOf(r: Rule, w1: string, w2: string, y: string, s: string)
    requires |r.token| > 0 && !IsSpace(r.token[0]) && AllSpace(w1)
    requires s == w1 + (r.token + (w2 + y))
    ensures SpaceRun(s) == |w1|
  {
    var u := r.token + (w2 + y);
    assert u[0] == r.token[0];
    SpaceRunOf(w1, u);
  }

  lemma TokenOf(r: Rule, w1: string, w2: string, y: string, s: string)
    requires s == w1 + (r.token + (w2 + y))
    ensures TokenAt(r, s, |w1|)
  {
    var u := r.token + (w2 + y);
    assert s[|w1|..] == u;
    assert u[..|r.token|] == r.token;
  }

  lemma TailOf(r: Rule, w1: string, w2: string, y: string, s: string)
    requires AllSpace(w2) && (r.padded ==> |w2| > 0)
    requires y == [] || !IsSpace(y[0])
    requires s == w1 + (r.token + (w2 + y))
    ensures MatchTail(r, s, |w1| + |r.token|) == |w1| + |r.token| + |w2|
  {
    assert s[|w1| + |r.token|..] == w2 + y;
    SpaceRunOf(w2, y);
  }

  /** The pattern matches the token with whitespace runs around it, all of it. */
  lemma MatchLenOf(r: Rule, w1: string, w2: string, y: string, s: string)
    requires |r.token| > 0 && !IsSpace(r.token[0])
    requires AllSpace(w1) && AllSpace(w2)
    requires r.padded ==> |w1| > 0 && |w2| > 0
    requires y == [] || !IsSpace(y[0])
    requires s == w1 + (r.token + (w2 + y))
    ensures MatchLen(r, s) == |w1| + |r.token| + |w2|
  {
    LeadOf(r, w1, w2, y, s);
    TokenOf(r, w1, w2, y, s);
    TailOf(r, w1, w2, y, s);
    MatchLenFrom(r, s, |w1|, |w1| + |r.token| + |w2|);
  }

  /** A scan step at a match emits the replacement and skips the match. */
  lemma StepReplaced(r: Rule, s: string, n: nat)
    requires s != [] && MatchLen(r, s) == n && n > 0
    ensures Rewrite(r, s) == [r.replacement] + Rewrite(r, s[n..])
  {
    assert Rewrite(r, s) == [Emitted(r, s)] + Rewrite(r, s[Consumed(r, s)..]);
  }

  /** The token with any whitespace around it (at least one character on each side for
      ` at ` and ` dot `) becomes the single replacement character. */
  lemma RewriteReplaces(r: Rule, w1: string, w2: string, y: string)
    requires ValidRule(r)
    requires AllSpace(w1) && AllSpace(w2)
    requires r.padded ==> |w1| > 0 && |w2| > 0
    requires y == [] || !IsSpace(y[0])
    ensures Rewrite(r, w1 + r.token + w2 + y) == [r.replacement] + Rewrite(r, y)
  {
    var s := w1 + (r.token + (w2 + y));
    var n := |w1| + |r.token| + |w2|;
    SplitOf(w1, r.token, w2, y, s);
    MatchLenOf(r, w1, w2, y, s);
    StepReplaced(r, s, n);
  }

  lemma SplitOf(a: string, b: string, c: string, d: string, s: string)
    requires s == a + (b + (c + d))
    ensures a + b + c + d == s
    ensures s[|a| + |b| + |c|..] == d
  {
  }

  /** No shortest match of `r` starts before position `k` of `s`. */
  predicate CleanBefore(r: Rule, s: string, k: nat) {
    forall p :: 0 <= p < k ==> !OccursAt(r, s, p)
  }

  /** A leading text in which no match of `r` starts, and which does not end in whitespace,
      is copied unchanged; the scan then goes on from where that text ends. */
  lemma {:induction false} RewriteAfterClean(r: Rule, x: string, z: string)
    requires ValidRule(r)
    requires x == [] || !IsSpace(x[|x| - 1])
    requires CleanBefore(r, x + z, |x|)
    ensures Rewrite(r, x + z) == x + Rewrite(r, z)
    decreases |x|
  {
    if x == [] {
      assert x + z == z;
    } else {
      KeepFirst(r, x, z);
      CleanBeforeTail(r, x, z);
      RewriteAfterClean(r, x[1..], z);
      ConsAssoc(x, Rewrite(r, z));
    }
  }

  /** The first character of such a leading text is kept. */
  lemma KeepFirst(r: Rule, x: string, z: string)
    requires ValidRule(r) && x != [] && !IsSpace(x[|x| - 1])
    requires CleanBefore(r, x + z, |x|)
    ensures Rewrite(r, x + z) == [x[0]] + Rewrite(r, x[1..] + z)
  {
    var s := x + z;
    NoMatchBefore(r, x, z);
    StepUnmatched(r, s);
    assert s[0] == x[0] && s[1..] == x[1..] + z;
  }

  /** What is left of such a leading text after its first character is one again. */
  lemma CleanBeforeTail(r: Rule, x: string, z: string)
    requires x != [] && !IsSpace(x[|x| - 1])
    requires CleanBefore(r, x + z, |x|)
    ensures var t := x[1..]; (t == [] || !IsSpace(t[|t| - 1])) && CleanBefore(r, t + z, |t|)
  {
    var s, t := x + z, x[1..];
    assert s[1..] == t + z;
    forall p | 0 <= p < |t| ensures !OccursAt(r, t + z, p) {
      OccursShift(r, s, 1, p);
    }
    assert t == [] || t[|t| - 1] == x[|x| - 1];
  }

  lemma ConsAssoc(x: string, rest: string)
    requires x != []
    ensures [x[0]] + (x[1..] + rest) == x + rest
  {
    assert x == [x[0]] + x[1..];
  }

  /** The pattern cannot match at the start of such a leading text: a match would begin with
      the whitespace before its shortest match, which starts inside the text. */
  lemma NoMatchBefore(r: Rule, x: string, z: string)
    requires ValidRule(r) && x != [] && !IsSpace(x[|x| - 1])
    requires CleanBefore(r, x + z, |x|)
    ensures MatchLen(r, x + z) == 0
  {
    var s := x + z;
    if MatchLen(r, s) > 0 {
      MatchImpliesOccurs(r, s);
      SpaceRunStops(s, |x| - 1);
    }
  }

  /** The `j`-th token character of a shortest match at `p`. */
  lemma OccursChar(r: Rule, s: string, p: nat, j: nat)
    requires OccursAt(r, s, p) && j < |r.token|
    ensures s[p + (if r.padded then 1 else 0) + j] == r.token[j]
  {
    var o := if r.padded then 1 else 0;
    assert s[p + o + j] == s[p + o..p + o + |r.token|][j];
  }

  /** No shortest match starts before `k` when two adjacent characters of the token never
      appear together in the part of the text such a match would cover. */
  lemma CleanBeforeByPair(r: Rule, s: string, k: nat, j: nat)
    requires j + 1 < |r.token|
    requires forall q :: 0 <= q < k + j + 1 && q + 1 < |s| ==>
               !(s[q] == r.token[j] && s[q + 1] == r.token[j + 1])
    ensures CleanBefore(r, s, k)
  {
    forall p | 0 <= p < k ensures !OccursAt(r, s, p) {
      if OccursAt(r, s, p) {
        OccursChar(r, s, p, j);
        OccursChar(r, s, p, j + 1);
      }
    }
  }

  /** The same, when the text up to the end of that part splits into a piece without the
      first of the two characters followed by a piece without the second. */
  lemma CleanBeforeBySplit(r: Rule, s: string, k: nat, j: nat, u: string, v: string, w: string)
    requires j + 1 < |r.token| && s == u + v + w
    requires r.token[j] !in u && r.token[j + 1] !in v
    requires w == [] || k + j + 2 <= |u| + |v|
    ensures CleanBefore(r, s, k)
  {
    forall q | 0 <= q < k + j + 1 && q + 1 < |s|
      ensures !(s[q] == r.token[j] && s[q + 1] == r.token[j + 1])
    {
      if q < |u| {
        assert s[q] == u[q] && u[q] in u;
      } else {
        assert s[q + 1] == v[q + 1 - |u|] && v[q + 1 - |u|] in v;
      }
    }
    CleanBeforeByPair(r, s, k, j);
  }

  /** The same for ` at ` and ` dot `, by the whitespace character in front of the token:
      the text up to the end of that part splits into a piece without whitespace followed
      by a piece without the first character of the token. */
  lemma CleanBeforeBySpace(r: Rule, s: string, k: nat, u: string, v: string, w: string)
    requires r.padded && |r.token| > 0 && s == u + v + w
    requires forall i :: 0 <= i < |u| ==> !IsSpace(u[i])
    requires r.token[0] !in v
    requires w == [] || k + 1 <= |u| + |v|
    ensures CleanBefore(r, s, k)
  {
    forall p | 0 <= p < k ensures !OccursAt(r, s, p) {
      if p < |u| {
        assert s[p] == u[p] && !IsSpace(s[p]);
      } else if p + 1 + |r.token| <= |s| {
        assert s[p + 1] == v[p + 1 - |u|] && v[p + 1 - |u|] in v;
        assert s[p + 1..p + 1 + |r.token|][0] != r.token[0];
      }
    }
  }

  /** A rule does not occur in text that lacks one of the characters of its token. */
  lemma CleanByAbsent(r: Rule, s: string, j: nat)
    requires j < |r.token| && r.token[j] !in s
    ensures Clean(r, s)
  {
    forall p | 0 <= p < |s| ensures !OccursAt(r, s, p) {
      if OccursAt(r, s, p) {
        OccursChar(r, s, p, j);
      }
    }
  }

  /** Clean text is clean before its end. */
  lemma CleanOfBefore(r: Rule, s: string)
    requires CleanBefore(r, s, |s|)
    ensures Clean(r, s)
  {
  }

  /** A whitespace run stops at the first character that is not whitespace. */
  lemma SpaceRunStops(s: string, k: nat)
    requires k < |s| && !IsSpace(s[k])
    ensures SpaceRun(s) <= k
  {
  }

  /** An obfuscated token anywhere in the text: the token with the whitespace around it
      becomes the replacement character, the text before it is kept, and the scan goes on
      after it. */
  lemma RewriteReplacesWithin(r: Rule, x: string, w1: string, w2: string, y: string)
    requires ValidRule(r)
    requires AllSpace(w1) && AllSpace(w2)
    requires r.padded ==> |w1| > 0 && |w2| > 0
    requires y == [] || !IsSpace(y[0])
    requires x == [] || !IsSpace(x[|x| - 1])
    requires CleanBefore(r, x + w1 + r.token + w2 + y, |x|)
    ensures Rewrite(r, x + w1 + r.token + w2 + y) == x + [r.replacement] + Rewrite(r, y)
  {
    KeptBefore(r, x, w1, w2, y);
    RewriteReplaces(r, w1, w2, y);
    Assoc(x, [r.replacement], Rewrite(r, y));
  }

  lemma KeptBefore(r: Rule, x: string, w1: string, w2: string, y: string)
    requires ValidRule(r)
    requires x == [] || !IsSpace(x[|x| - 1])
    requires CleanBefore(r, x + w1 + r.token + w2 + y, |x|)
    ensures Rewrite(r, x + w1 + r.token + w2 + y) == x + Rewrite(r, w1 + r.token + w2 + y)
  {
    Regroup(x, w1, r.token, w2, y);
    RewriteAfterClean(r, x, w1 + r.token + w2 + y);
  }

  lemma Regroup(x: string, a: string, b: string, c: string, y: string)
    ensures x + a + b + c + y == x + (a + b + c + y)
  {
  }

  lemma Assoc(a: string, b: string, c: string)
    ensures a + (b + c) == a + b + c
  {
  }

  // ---------------------------------------------------------------------------
  // The whole table

  lemma {:induction false} ApplyAllKeepsClean(rules: seq<Rule>, q: Rule, s: string)
    requires AllValid(rules) && ValidRule(q) && Clean(q, s)
    ensures Clean(q, ApplyAll(rules, s))
    decreases |rules|
  {
    if rules != [] {
      RewriteKeepsClean(rules[0], q, s);
      ApplyAllKeepsClean(rules[1..], q, Rewrite(rules[0], s));
    }
  }

  /** After the table has run, no pattern of the table occurs in the text. */
  lemma {:induction false} ApplyAllCleans(rules: seq<Rule>, s: string)
    requires AllValid(rules)
    ensures forall i :: 0 <= i < |rules| ==> Clean(rules[i], ApplyAll(rules, s))
    decreases |rules|
  {
    if rules != [] {
      var s1 := Rewrite(rules[0], s);
      RewriteKeepsClean(rules[0], rules[0], s);
      ApplyAllKeepsClean(rules[1..], rules[0], s1);
      ApplyAllCleans(rules[1..], s1);
      forall i | 0 <= i < |rules| ensures Clean(rules[i], ApplyAll(rules, s)) {
        if i > 0 {
          assert rules[i] == rules[1..][i - 1];
        }
      }
    }
  }

  /** The table changes nothing in text none of its patterns occurs in. */
  lemma {:induction false} ApplyAllIdentity(rules: seq<Rule>, s: string)
    requires AllValid(rules)
    requires forall i :: 0 <= i < |rules| ==> Clean(rules[i], s)
    ensures ApplyAll(rules, s) == s
    decreases |rules|
  {
    if rules != [] {
      RewriteIdentity(rules[0], s);
      assert forall i :: 0 <= i < |rules| - 1 ==> rules[1..][i] == rules[i + 1];
      ApplyAllIdentity(rules[1..], s);
    }
  }

  lemma {:induction false} ApplyAllNoUpper(rules: seq<Rule>, s: string)
    requires AllValid(rules) && NoUpper(s)
    ensures NoUpper(ApplyAll(rules, s))
    decreases |rules|
  {
    if rules != [] {
      RewriteNoUpper(rules[0], s);
      ApplyAllNoUpper(rules[1..], Rewrite(rules[0], s));
    }
  }

  /** Normalised text is lower case and contains none of the six obfuscated forms. */
  lemma NormalizeClean(text: string)
    ensures NoUpper(Normalize(text))
    ensures forall i :: 0 <= i < |Obfuscations| ==> Clean(Obfuscations[i], Normalize(text))
  {
    ObfuscationsValid();
    ApplyAllNoUpper(Obfuscations, Lower(text));
    ApplyAllCleans(Obfuscations, Lower(text));
  }

  /** Normalising normalised text changes nothing. */
  lemma NormalizeIdempotent(text: string)
    ensures Normalize(Normalize(text)) == Normalize(text)
  {
    var n := Normalize(text);
    NormalizeClean(text);
    LowerOfLower(n);
    ObfuscationsValid();
    ApplyAllIdentity(Obfuscations, n);
  }
}
