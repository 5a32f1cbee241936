/** What `validarSenha` promises about the messages it returns, stated over
 *  the functional specification `Evaluate` that the method `ValidarSenha`
 *  is proved equal to.
 */
module RuleProperties {
  import opened PasswordRules

  /** The rule table itself is in declared order. */
  lemma RulesInDeclaredOrder()
    ensures InDeclaredOrder(Rules)
  {
  }

  /** The verdict's messages are those of the failing rules of the table. */
  lemma MessagesOfVerdict(s: string)
    ensures Evaluate(s).Messages() == MessagesOf(FailedRules(Rules, s))
  {
  }

  /** A rule's message is present exactly when that rule fails. */
  lemma MessagePresentExactlyWhenRuleFails(s: string, r: Rule)
    ensures Message(r) in Evaluate(s).Messages() <==> !Passes(r, s)
  {
    var failed := FailedRules(Rules, s);
    var e := MessagesOf(failed);
    MessagesOfVerdict(s);
    FailedRulesMembership(Rules, s, r);
    assert r in Rules by { assert Rules[Rank(r)] == r; }
    if Message(r) in e {
      var i :| 0 <= i < |e| && e[i] == Message(r);
      MessageInjective(r, failed[i]);
      assert failed[i] in failed;
    }
    if !Passes(r, s) {
      var i :| 0 <= i < |failed| && failed[i] == r;
      assert e[i] == Message(r);
    }
  }

  /** The messages are those of the failing rules, one per failing rule, in
      declared order (length, upper case, digit, special), none twice, and a
      rule's message is present exactly when that rule fails. */
  lemma MessagesFollowFailedRules(s: string)
    ensures var e := Evaluate(s).Messages();
            var failed := FailedRules(Rules, s);
            && |e| == |failed| == |FailingSet(s)|
            && (forall i :: 0 <= i < |e| ==> e[i] == Message(failed[i]))
            && InDeclaredOrder(failed)
            && (forall r :: Message(r) in e <==> !Passes(r, s))
            && (forall i, j :: 0 <= i < j < |e| ==> e[i] != e[j])
  {
    var e := Evaluate(s).Messages();
    var failed := FailedRules(Rules, s);
    MessagesOfVerdict(s);
    RulesInDeclaredOrder();
    FailedRulesOrdered(Rules, s);
    FailedRulesCount(Rules, s);
    forall r ensures Message(r) in e <==> !Passes(r, s) {
      MessagePresentExactlyWhenRuleFails(s, r);
    }
    forall i, j | 0 <= i < j < |e| ensures e[i] != e[j] {
      MessageInjective(failed[i], failed[j]);
    }
  }

  /** The verdict is valid exactly when every rule passes; an invalid verdict
      always carries at least one message. */
  lemma ValidExactlyWhenAllRulesPass(s: string)
    ensures Evaluate(s).Valida() <==> forall r :: Passes(r, s)
    ensures Evaluate(s).Valida() <==> Evaluate(s).Messages() == []
  {
    if !Evaluate(s).Valida() {
      assert !Strong(s);
      if !LongEnough(s) { assert !Passes(LengthRule, s); }
      else if !HasUpper(s) { assert !Passes(UppercaseRule, s); }
      else if !HasDigit(s) { assert !Passes(DigitRule, s); }
      else { assert !Passes(SpecialRule, s); }
    }
  }

  /** Rule 1 fails exactly below eight characters: length 8 passes it and
      length 7 fails it. */
  lemma LengthBoundary(s: string)
    ensures MsgMinLength in Evaluate(s).Messages() <==> |s| < 8
    ensures |s| == 8 ==> MsgMinLength !in Evaluate(s).Messages()
    ensures |s| == 7 ==> MsgMinLength in Evaluate(s).Messages()
  {
    MessagesFollowFailedRules(s);
    assert Message(LengthRule) == MsgMinLength;
  }

  /** Rule 2 fails exactly when no character lies in 'A'..'Z'. */
  lemma UppercaseRuleFails(s: string)
    ensures MsgUppercase in Evaluate(s).Messages()
        <==> forall i :: 0 <= i < |s| ==> !('A' <= s[i] <= 'Z')
  {
    MessagesFollowFailedRules(s);
    assert Message(UppercaseRule) == MsgUppercase;
  }

  /** Rule 3 fails exactly when no character lies in '0'..'9'. */
  lemma DigitRuleFails(s: string)
    ensures MsgDigit in Evaluate(s).Messages()
        <==> forall i :: 0 <= i < |s| ==> !('0' <= s[i] <= '9')
  {
    MessagesFollowFailedRules(s);
    assert Message(DigitRule) == MsgDigit;
  }

  /** Rule 4 fails exactly when no character is one of ! @ # $ % ^ & *. */
  lemma SpecialRuleFails(s: string)
    ensures MsgSpecial in Evaluate(s).Messages()
        <==> forall i :: 0 <= i < |s| ==> s[i] !in {'!', '@', '#', '$', '%', '^', '&', '*'}
  {
    MessagesFollowFailedRules(s);
    assert Message(SpecialRule) == MsgSpecial;
    assert forall c :: c in SpecialChars <==> c in {'!', '@', '#', '$', '%', '^', '&', '*'};
  }
}
