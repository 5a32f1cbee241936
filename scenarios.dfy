/** Concrete candidates and requests, and the answers the rules force. */
module Scenarios {
  import opened PasswordRules
  import opened Routes

  /** The empty candidate fails all four rules: all four messages, in order.
      The evaluator is total, so this is an answer and not an error. */
  lemma EmptyCandidateFailsEveryRule()
    ensures Evaluate("") == Invalid([MsgMinLength, MsgUppercase, MsgDigit, MsgSpecial])
  {
    ErrosOfRules("");
  }

  /** "abc" is short and has neither upper case, digit nor special character. */
  lemma ShortLowercaseFailsEveryRule()
    ensures Evaluate("abc") == Invalid([MsgMinLength, MsgUppercase, MsgDigit, MsgSpecial])
  {
    ErrosOfRules("abc");
  }

  /** "Abcdefg1!" has nine characters, 'A', '1' and '!': it is valid. */
  lemma StrongCandidateIsValid()
    ensures Evaluate("Abcdefg1!") == Valid
  {
    var s := "Abcdefg1!";
    assert IsUpper(s[0]) && IsDigit(s[7]) && IsSpecial(s[8]);
  }

  /** "ABCDEFGH" is long enough and has upper case, but lacks a digit and a
      special character: exactly those two messages, in that order. */
  lemma UppercaseOnlyMissesDigitAndSpecial()
    ensures Evaluate("ABCDEFGH") == Invalid([MsgDigit, MsgSpecial])
  {
    var s := "ABCDEFGH";
    assert IsUpper(s[0]);
    assert !HasDigit(s) && !HasSpecial(s);
    ErrosOfRules(s);
  }

  /** No `senha` field in the body: 400 with the body's message, whatever
      the rules would say. */
  lemma BodyWithoutCandidate()
    ensures ValidarSenhaRoute(None)
         == Response(400, Invalid(["Nenhuma senha foi fornecida no corpo (body) da requisição."]))
  {
  }

  /** An empty query parameter counts as absent: 400 with the query's two
      messages, not the four rule messages `Evaluate("")` would give. */
  lemma EmptyQueryCandidateCountsAsMissing()
    ensures TesteSenhaRoute(Some("")) == Response(400, Invalid(MissingInQuery))
    ensures TesteSenhaRoute(Some("")).body != Evaluate("")
  {
  }

  /** A strong candidate in the body is accepted with 200 and `{valida: true}`. */
  lemma BodyWithStrongCandidate()
    ensures ValidarSenhaRoute(Some("Abcdefg1!")) == Response(200, Valid)
  {
    StrongCandidateIsValid();
  }

  /** A weak candidate in the query is rejected with 400 and the rule messages. */
  lemma QueryWithWeakCandidate()
    ensures TesteSenhaRoute(Some("ABCDEFGH")) == Response(400, Invalid([MsgDigit, MsgSpecial]))
  {
    UppercaseOnlyMissesDigitAndSpecial();
  }
}
