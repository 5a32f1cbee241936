# Password validator (Missão 9) — a Dafny model

The service in src/server.ts checks a candidate password against four fixed
rules and reports every rule that fails, with a fixed Portuguese message per
rule, in rule order:

1. at least 8 characters;
2. at least one character in `A`–`Z`;
3. at least one character in `0`–`9`;
4. at least one character among `! @ # $ % ^ & *`.

The verdict is `{valida: true}` when no rule fails and
`{valida: false, erros}` otherwise. Two HTTP routes wrap the evaluator:
`POST /validar-senha` reads the candidate from the JSON body and
`GET /teste-senha` reads it from the query string. Each answers 400 with its
own "no candidate" messages when the candidate is absent or empty. Otherwise
it answers 200 for a valid verdict and 400 for an invalid one, with the
verdict as the body.

Files:

- `password_rules.dfy` (module `PasswordRules`) holds the rules, the messages,
  the `Verdict` datatype and the evaluator. `Evaluate` is the functional
  specification. It filters the rule table `Rules` by failure, which is the
  data-driven form of the rule set. `ValidarSenha` is the evaluator as
  src/server.ts writes it: four independent checks that each append a message, then
  a branch on the number of messages. It is proved equal to `Evaluate`.
  Generic lemmas cover the filter: membership for any rule table, order for
  a table in declared order, and count for a table without repeated rules.
- `rule_properties.dfy` (module `RuleProperties`) proves the promises about
  the messages. There is one message per failed rule, in declared order,
  never repeated, and each message is present exactly when its rule fails.
  It also proves the validity condition, the length boundary and the three
  character-class rules.
- `routes.dfy` (module `Routes`) models the two route handlers as pure
  functions from an optional candidate to a `Response` (a status and a body).
  It proves how they relate to each other and to the evaluator.
- `scenarios.dfy` (module `Scenarios`) works out concrete candidates and
  requests.

Assumptions:

- A candidate is a `seq<char>`, and each `char` stands for one UTF-16 code
  unit. JavaScript's `.length` and its regular-expression classes without the
  `u` flag count and test code units.
- `Evaluate` is a function, so calling it twice on the same candidate gives
  the same verdict by construction.
- An empty candidate is treated as missing by both routes, because JavaScript
  treats `""` as falsy. The routes therefore never pass `""` to the
  evaluator, although `Evaluate("")` would give the four rule messages. This
  model keeps this behaviour
  (`Scenarios.EmptyQueryCandidateCountsAsMissing`); whether it was meant is
  open.

## Model

| member | source | states |
|---|---|---|
| `PasswordRules.ValidarSenha` | src/server.ts:19-48 | The append-per-failed-check evaluator returns exactly the verdict of the rule-table specification `Evaluate`. |
| `PasswordRules.Evaluate` | src/server.ts:43-47 | The verdict is valid exactly when all four rules hold; an invalid verdict always carries a non-empty message list. |
| `PasswordRules.MessageInjective` | src/server.ts:24-39 | The four failure messages are pairwise distinct, so each message identifies its rule. |
| `PasswordRules.FailedRulesMembership` | src/server.ts:22-40 | For any rule table, a rule is reported exactly when it is in the table and fails on the candidate. |
| `PasswordRules.FailedRulesOrdered` | src/server.ts:22-40 | Filtering a table that is in declared order gives a result in declared order, with no rule twice. |
| `PasswordRules.FailedRulesCount` | src/server.ts:22-40 | For any table in which no rule occurs twice, the number of reported rules equals the number of distinct failing rules. |
| `PasswordRules.FailedRulesOfRules` | src/server.ts:22-40 | On the table `Rules` of `validarSenha` the reported rules are length, upper case, digit and special, each exactly when its check fails, in that order. |
| `RuleProperties.RulesInDeclaredOrder` | src/server.ts:22-40 | The rule table lists length, upper case, digit and special in the order `validarSenha` checks them. |
| `RuleProperties.MessagesFollowFailedRules` | src/server.ts:22-40 | There are as many messages as failed rules, in declared order, none repeated. Each rule's message is present exactly when the rule fails. |
| `RuleProperties.ValidExactlyWhenAllRulesPass` | src/server.ts:43-47 | The verdict is valid if and only if every rule passes, and if and only if its message list is empty. |
| `RuleProperties.LengthBoundary` | src/server.ts:23-25 | The length message is present exactly below 8 characters: length 8 passes rule 1 and length 7 fails it. |
| `RuleProperties.UppercaseRuleFails` | src/server.ts:28-30 | The upper-case message is present exactly when no character lies in 'A'..'Z'. |
| `RuleProperties.DigitRuleFails` | src/server.ts:33-35 | The digit message is present exactly when no character lies in '0'..'9'. |
| `RuleProperties.SpecialRuleFails` | src/server.ts:38-40 | The special-character message is present exactly when no character is one of ! @ # $ % ^ & *. |
| `Routes.ValidarSenhaRoute` | src/server.ts:60-77 | An absent or empty body field gives 400 with the body's missing-candidate message. Otherwise the body is the evaluator's verdict unchanged, with status 200 exactly when it is valid and 400 exactly when it is invalid. |
| `Routes.TesteSenhaRoute` | src/server.ts:85-105 | The same as the body route, with the query's two missing-candidate messages. |
| `Routes.StatusOkExactlyForStrongCandidate` | src/server.ts:60-105 | Each route answers 200 exactly when a candidate is present and passes all four rules. Every other answer is 400. |
| `Routes.RoutesAgreeOnPresentCandidate` | src/server.ts:60-105 | For a present candidate the two routes give the same status and body. They differ only in the missing-candidate messages, which are different in the two routes. |
| `Routes.MissingMessagesAreNotRuleMessages` | src/server.ts:64-95 | No rule message appears among either route's missing-candidate messages. |
| `Routes.MissingBodyIsNoVerdict` | src/server.ts:64-95 | No verdict of the evaluator equals either missing-candidate body, so a 400 answer tells "missing" apart from "weak". |
| `Scenarios.EmptyCandidateFailsEveryRule` | src/server.ts:19-47 | The evaluator is total: the empty string gives an invalid verdict with all four messages in rule order. |
| `Scenarios.ShortLowercaseFailsEveryRule` | src/server.ts:19-47 | "abc" gives all four messages in rule order. |
| `Scenarios.StrongCandidateIsValid` | src/server.ts:19-47 | "Abcdefg1!" is valid. |
| `Scenarios.UppercaseOnlyMissesDigitAndSpecial` | src/server.ts:19-47 | "ABCDEFGH" gives exactly the digit and special messages, in that order. |
| `Scenarios.BodyWithoutCandidate` | src/server.ts:64-66 | A body without `senha` gives 400 and the single message about the missing body field. |
| `Scenarios.EmptyQueryCandidateCountsAsMissing` | src/server.ts:88-95 | An empty query parameter gives 400 with the query's missing-candidate messages, not the rule messages. |
| `Scenarios.BodyWithStrongCandidate` | src/server.ts:68-76 | A strong candidate in the body gives 200 and `{valida: true}`. |
| `Scenarios.QueryWithWeakCandidate` | src/server.ts:98-104 | A weak candidate in the query gives 400 and the evaluator's messages. |

## Left out

- Express setup, the `express.json()` middleware, `dotenv`, the `PORT` environment variable with its 3001 fallback, and the start-up log (src/server.ts:1-9, 111-112). These are framework glue and I/O.
- The root route `GET /` (src/server.ts:55-57). It sends a fixed text and contains no logic.
- Truthy non-string candidates, such as `true`, a non-zero number or an array-valued query parameter, which pass through the `senha as string` casts (src/server.ts:68, 98). The model takes the candidate to be an optional string. Falsy non-strings (`null`, `false`, `0`) fail the `!senha` test at src/server.ts:64 and 88 and get the same answer as an absent field, which `Routes.Falsy` gives for `None`.
- JSON serialisation and the HTTP status machinery. A response is the plain datatype `Routes.Response`.
- Surrogate pairs. Each `char` stands for one UTF-16 code unit, so a character outside the Basic Multilingual Plane, which counts as two code units in `.length`, is not modelled.
