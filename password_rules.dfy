/** The password rule evaluator `validarSenha` of src/server.ts.
 *
 *  A candidate is checked against four rules, all of them, in a fixed order;
 *  every rule that fails contributes its fixed Portuguese message to the
 *  list `erros`.  The verdict is valid exactly when that list is empty.
 *
 *  Characters: `.length` in src/server.ts and its regular-expression character
 *  classes work on UTF-16 code units; here a candidate is a `seq<char>` and
 *  each `char` stands for one code unit.
 */
module PasswordRules {

  /** The shortest length rule 1 accepts (`senha.length < 8` fails it). */
  const MinLength: nat := 8

  const MsgMinLength: string := "A senha precisa ter no mínimo 8 caracteres."
  const MsgUppercase: string := "A senha precisa ter pelo menos 1 letra maiúscula."
  const MsgDigit: string := "A senha precisa ter pelo menos 1 número."
  const MsgSpecial: string := "A senha precisa ter pelo menos 1 caractere especial (ex: !@#$%^&*)."

  /** The four rules, one constructor each. */
  datatype Rule = LengthRule | UppercaseRule | DigitRule | SpecialRule

  /** The rules in the order in which `validarSenha` checks them. */
  const Rules: seq<Rule> := [LengthRule, UppercaseRule, DigitRule, SpecialRule]

  /** The verdict object: `{valida: true}` or `{valida: false, erros}`. */
  datatype Verdict = Valid | Invalid(erros: seq<string>)
  {
    /** The `valida` field of the object. */
    predicate Valida() { Valid? }

    /** The messages of the verdict; a valid verdict carries none. */
    function Messages(): seq<string> {
      if Valid? then [] else erros
    }
  }

  // ---------------------------------------------------------------------------
  // Character classes and the four rule predicates
  // ---------------------------------------------------------------------------

  /** Member of the regular-expression class `[A-Z]`. */
  predicate IsUpper(c: char) { 'A' <= c <= 'Z' }

  /** Member of the regular-expression class `[0-9]`. */
  predicate IsDigit(c: char) { '0' <= c <= '9' }

  /** The characters of the class `[!@#$%^&*]`; inside a class `^`, `$` and
      `*` stand for themselves. */
  const SpecialChars: string := "!@#$%^&*"

  /** Member of the regular-expression class `[!@#$%^&*]`. */
  predicate IsSpecial(c: char) { c in SpecialChars }

  /** Rule 1 holds. */
  predicate LongEnough(s: string) { |s| >= MinLength }

  /** `/[A-Z]/.test(s)`: some position of `s` holds an upper-case letter. */
  predicate HasUpper(s: string) { exists i :: 0 <= i < |s| && IsUpper(s[i]) }

  /** `/[0-9]/.test(s)`. */
  predicate HasDigit(s: string) { exists i :: 0 <= i < |s| && IsDigit(s[i]) }

  /** `/[!@#$%^&*]/.test(s)`. */
  predicate HasSpecial(s: string) { exists i :: 0 <= i < |s| && IsSpecial(s[i]) }

  /** Whether rule `r` holds of `s`. */
  predicate Passes(r: Rule, s: string) {
    match r
    case LengthRule => LongEnough(s)
    case UppercaseRule => HasUpper(s)
    case DigitRule => HasDigit(s)
    case SpecialRule => HasSpecial(s)
  }

  /** All four rules hold. */
  predicate Strong(s: string) {
    LongEnough(s) && HasUpper(s) && HasDigit(s) && HasSpecial(s)
  }

  /** The failure message pushed for rule `r`. */
  function Message(r: Rule): string {
    match r
    case LengthRule => MsgMinLength
    case UppercaseRule => MsgUppercase
    case DigitRule => MsgDigit
    case SpecialRule => MsgSpecial
  }

  /** Position of `r` in the declared rule order. */
  function Rank(r: Rule): (k: nat)
    ensures k < |Rules| && Rules[k] == r
  {
    match r
    case LengthRule => 0
    case UppercaseRule => 1
    case DigitRule => 2
    case SpecialRule => 3
  }

  /** Distinct rules have distinct messages, so a message names its rule. */
  lemma MessageInjective(a: Rule, b: Rule)
    ensures Message(a) == Message(b) <==> a == b
  {
  }

  // ---------------------------------------------------------------------------
  // The functional specification: the rule table filtered by failure
  // ---------------------------------------------------------------------------

  /** The rules of `rules` that fail on `s`, in the order of `rules`. */
  function FailedRules(rules: seq<Rule>, s: string): seq<Rule> {
    if rules == [] then []
    else (if Passes(rules[0], s) then [] else [rules[0]]) + FailedRules(rules[1..], s)
  }

  /** The message of each rule of `rs`, in order. */
  function MessagesOf(rs: seq<Rule>): seq<string> {
    seq(|rs|, i requires 0 <= i < |rs| => Message(rs[i]))
  }

  /** The rules that fail on `s`, as a set. */
  function FailingSet(s: string): set<Rule> {
    set r | r in Rules && !Passes(r, s)
  }

  /** Ranks strictly increase along `rs`: `rs` is in declared order and no
      rule occurs twice. */
  predicate InDeclaredOrder(rs: seq<Rule>) {
    forall i, j :: 0 <= i < j < |rs| ==> Rank(rs[i]) < Rank(rs[j])
  }

  /** No rule occurs twice in `rs`. */
  predicate NoRepeats(rs: seq<Rule>) {
    forall i, j :: 0 <= i < j < |rs| ==> rs[i] != rs[j]
  }

  /** The verdict `validarSenha` returns: the messages of the failing rules in
      declared order, valid exactly when there are none. */
  function Evaluate(s: string): (v: Verdict)
    ensures v.Valid? <==> Strong(s)
    ensures v.Invalid? ==> v.erros != []
  {
    FailedRulesOfRules(s);
    var erros := MessagesOf(FailedRules(Rules, s));
    if |erros| > 0 then Invalid(erros) else Valid
  }

  // ---------------------------------------------------------------------------
  // Lemmas about the filter, for any rule table
  // ---------------------------------------------------------------------------

  /** A rule is reported exactly when it is in the table and fails. */
  lemma {:induction false} FailedRulesMembership(rules: seq<Rule>, s: string, r: Rule)
    ensures r in FailedRules(rules, s) <==> r in rules && !Passes(r, s)
  {
    if rules != [] {
      FailedRulesMembership(rules[1..], s, r);
      assert rules == [rules[0]] + rules[1..];
    }
  }

  /** The filter keeps the table's order: it yields a subsequence. */
  lemma {:induction false} FailedRulesOrdered(rules: seq<Rule>, s: string)
    requires InDeclaredOrder(rules)
    ensures InDeclaredOrder(FailedRules(rules, s))
  {
    if rules != [] {
      var rest := FailedRules(rules[1..], s);
      FailedRulesOrdered(rules[1..], s);
      forall r | r in rest ensures Rank(rules[0]) < Rank(r) {
        FailedRulesMembership(rules[1..], s, r);
        var k :| 0 <= k < |rules[1..]| && rules[1..][k] == r;
        assert rules[k + 1] == r;
      }
    }
  }

  /** For a table without repetitions, the filter yields exactly as many rules
      as the table has failing rules. */
  lemma {:induction false} FailedRulesCount(rules: seq<Rule>, s: string)
    requires NoRepeats(rules)
    ensures |FailedRules(rules, s)| == |set r | r in rules && !Passes(r, s)|
  {
    if rules == [] {
      assert (set r | r in rules && !Passes(r, s)) == {};
    } else {
      var head, tail := rules[0], rules[1..];
      var rest := set r | r in tail && !Passes(r, s);
      FailedRulesCount(tail, s);
      assert head !in tail by {
        forall k | 0 <= k < |tail| ensures tail[k] != head {
          assert tail[k] == rules[k + 1];
        }
      }
      HeadAndRest(rules, s);
      if !Passes(head, s) {
        assert head !in rest;
      }
    }
  }

  /** The failing rules of a non-empty table: its head when that fails, and
      the failing rules of the rest. */
  lemma HeadAndRest(rules: seq<Rule>, s: string)
    requires rules != []
    ensures (set r | r in rules && !Passes(r, s))
         == (if Passes(rules[0], s) then {} else {rules[0]}) + (set r | r in rules[1..] && !Passes(r, s))
  {
  }

  /** The filter applied to `Rules`, the table of `validarSenha`, spelled out rule by rule. */
  lemma FailedRulesOfRules(s: string)
    ensures FailedRules(Rules, s)
         == (if LongEnough(s) then [] else [LengthRule])
          + (if HasUpper(s) then [] else [UppercaseRule])
          + (if HasDigit(s) then [] else [DigitRule])
          + (if HasSpecial(s) then [] else [SpecialRule])
  {
    var r3: seq<Rule> := [SpecialRule];
    var r2: seq<Rule> := [DigitRule, SpecialRule];
    var r1: seq<Rule> := [UppercaseRule, DigitRule, SpecialRule];
    assert r3[1..] == [];
    assert r2[1..] == r3;
    assert r1[1..] == r2;
    assert Rules[1..] == r1;
    assert FailedRules(r3, s) == (if HasSpecial(s) then [] else [SpecialRule]);
    assert FailedRules(r2, s) == (if HasDigit(s) then [] else [DigitRule]) + FailedRules(r3, s);
    assert FailedRules(r1, s) == (if HasUpper(s) then [] else [UppercaseRule]) + FailedRules(r2, s);
  }

  // ---------------------------------------------------------------------------
  // The evaluator as src/server.ts writes it
  // ---------------------------------------------------------------------------

  /** The messages of the failing rules of `Rules`, spelled out
      check by check. */
  lemma ErrosOfRules(s: string)
    ensures MessagesOf(FailedRules(Rules, s))
         == (if LongEnough(s) then [] else [MsgMinLength])
          + (if HasUpper(s) then [] else [MsgUppercase])
          + (if HasDigit(s) then [] else [MsgDigit])
          + (if HasSpecial(s) then [] else [MsgSpecial])
  {
    FailedRulesOfRules(s);
  }

  /** `validarSenha`: four independent checks, each pushing its message onto
      `erros` when it fails, then a branch on `erros.length`. */
  method ValidarSenha(senha: string) returns (resultado: Verdict)
    ensures resultado == Evaluate(senha)
  {
    ghost var e1: seq<string> := if LongEnough(senha) then [] else [MsgMinLength];
    ghost var e2: seq<string> := if HasUpper(senha) then [] else [MsgUppercase];
    ghost var e3: seq<string> := if HasDigit(senha) then [] else [MsgDigit];
    ghost var e4: seq<string> := if HasSpecial(senha) then [] else [MsgSpecial];
    var erros: seq<string> := [];
    if |senha| < MinLength {
      erros := erros + [MsgMinLength];
    }
    assert erros == e1;
    if !HasUpper(senha) {
      erros := erros + [MsgUppercase];
    }
    assert erros == e1 + e2;
    if !HasDigit(senha) {
      erros := erros + [MsgDigit];
    }
    assert erros == e1 + e2 + e3;
    if !HasSpecial(senha) {
      erros := erros + [MsgSpecial];
    }
    ErrosOfRules(senha);
    assert erros == MessagesOf(FailedRules(Rules, senha));
    if |erros| > 0 {
      resultado := Invalid(erros);
    } else {
      resultado := Valid;
    }
  }
}
