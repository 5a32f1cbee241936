/** The decision logic of the two HTTP routes of src/server.ts that call
 *  `validarSenha`: `POST /validar-senha` reads the candidate from the JSON
 *  body, `GET /teste-senha` from the query string.  Each route is a pure
 *  function from the (possibly absent) candidate to a status code and the
 *  JSON object sent back.
 */
module Routes {
  import opened PasswordRules

  /** A request field that may be absent. */
  datatype Option<T> = None | Some(value: T)

  const StatusOk: nat := 200
  const StatusBadRequest: nat := 400

  /** A status code and the JSON object sent as the body. */
  datatype Response = Response(status: nat, body: Verdict)

  /** The messages `POST /validar-senha` sends when the body has no candidate. */
  const MissingInBody: seq<string> := ["Nenhuma senha foi fornecida no corpo (body) da requisição."]

  /** The messages `GET /teste-senha` sends when the query has no candidate. */
  const MissingInQuery: seq<string> :=
    ["Nenhuma senha foi fornecida.", "Use a URL assim: .../teste-senha?senha=sua_senha_aqui"]

  /** JavaScript's `!senha` for a string field: absent or empty. */
  predicate Falsy(senha: Option<string>) {
    senha.None? || senha.value == ""
  }

  /** `POST /validar-senha`. */
  function ValidarSenhaRoute(senha: Option<string>): (res: Response)
    ensures Falsy(senha) ==> res == Response(StatusBadRequest, Invalid(MissingInBody))
    ensures !Falsy(senha) ==> res.body == Evaluate(senha.value)
    ensures !Falsy(senha) ==> (res.status == StatusOk <==> res.body.Valida())
    ensures !Falsy(senha) ==> (res.status == StatusBadRequest <==> !res.body.Valida())
  {
    if Falsy(senha) then Response(StatusBadRequest, Invalid(MissingInBody))
    else
      var resultado := Evaluate(senha.value);
      if !resultado.Valida() then Response(StatusBadRequest, resultado)
      else Response(StatusOk, resultado)
  }

  /** `GET /teste-senha`. */
  function TesteSenhaRoute(senha: Option<string>): (res: Response)
    ensures Falsy(senha) ==> res == Response(StatusBadRequest, Invalid(MissingInQuery))
    ensures !Falsy(senha) ==> res.body == Evaluate(senha.value)
    ensures !Falsy(senha) ==> (res.status == StatusOk <==> res.body.Valida())
    ensures !Falsy(senha) ==> (res.status == StatusBadRequest <==> !res.body.Valida())
  {
    if Falsy(senha) then Response(StatusBadRequest, Invalid(MissingInQuery))
    else
      var resultado := Evaluate(senha.value);
      if !resultado.Valida() then Response(StatusBadRequest, resultado)
      else Response(StatusOk, resultado)
  }

  /** Both routes answer 200 exactly for a present candidate that passes all
      four rules, and 400 otherwise. */
  lemma StatusOkExactlyForStrongCandidate(senha: Option<string>)
    ensures ValidarSenhaRoute(senha).status == StatusOk <==> senha.Some? && Strong(senha.value)
    ensures TesteSenhaRoute(senha).status == StatusOk <==> senha.Some? && Strong(senha.value)
    ensures ValidarSenhaRoute(senha).status in {StatusOk, StatusBadRequest}
    ensures TesteSenhaRoute(senha).status in {StatusOk, StatusBadRequest}
  {
  }

  /** The two routes differ only in their missing-candidate messages: for a
      present candidate they give the same status and the same body. */
  lemma RoutesAgreeOnPresentCandidate(senha: Option<string>)
    ensures !Falsy(senha) ==> ValidarSenhaRoute(senha) == TesteSenhaRoute(senha)
    ensures Falsy(senha) ==> ValidarSenhaRoute(senha).body.Messages() != TesteSenhaRoute(senha).body.Messages()
  {
  }

  /** A missing-candidate message is never a rule message, so the body of a
      rejected request tells which of the two cases occurred. */
  lemma MissingMessagesAreNotRuleMessages(r: Rule)
    ensures Message(r) !in MissingInBody
    ensures Message(r) !in MissingInQuery
  {
  }

  /** Hence no verdict of the evaluator equals a missing-candidate body. */
  lemma MissingBodyIsNoVerdict(s: string)
    ensures Evaluate(s) != Invalid(MissingInBody)
    ensures Evaluate(s) != Invalid(MissingInQuery)
  {
    if Evaluate(s).Invalid? {
      var failed := FailedRules(Rules, s);
      assert Evaluate(s).erros == MessagesOf(failed);
      assert |failed| > 0;
      assert Evaluate(s).erros[0] == Message(failed[0]);
      MissingMessagesAreNotRuleMessages(failed[0]);
    }
  }
}
