# InfoVacAPI core in Dafny

InfoVacAPI is an Express service over PostgreSQL. It serves primary-care clinics (UBS), their staff and
the availability of each vaccine at each clinic. This project models the service's two controllers as
operations on an abstract in-memory database.

- The tables are the fields of `Database.Store`:
  - `ubs`, `vacinas`, `funcionarios`, `usuarios` and `historico_atualizacoes` are sequences in table order.
    Where the controllers take `rows[0]` of a query without `ORDER BY`, the model takes the first matching
    row in table order; SQL itself promises no order there (see "Left out").
  - `disponibilidade_vacinas` is a map keyed by the pair (id_ubs, id_vacina), so each pair has at most one label.
  - Two counters stand for the serial id columns of `usuarios` and `historico_atualizacoes`.
- The state-changing handlers are methods of `Store`. Each one is proved against a pure decision function:
  - `atualizarStatusVacina` against `Availability.UpdateCheck`.
  - `register` against `Credentials.UserExists`.
  - `alterarSenha` against `Credentials.PasswordChangeCheck` and `Credentials.SetPassword`.
- The read handlers are pure functions in module `Directory`: `listarUBS`, `buscarUBS`, `listarVacinasUBS`
  and `buscarHistoricoAtualizacoes`. `login` is a pure function in `Credentials`.
- `ORDER BY` is a stable insertion sort (`Sequences.SortBy`). SQL does not fix the order of ties, so the
  contracts promise only sortedness and permutation.
- SQL NULL is `None`. A label is `Option<string>`, and JavaScript falsiness of such a value is `Tables.Falsy`.
- Clock readings are parameters:
  - CURRENT_DATE is a day number.
  - CURRENT_TIME is a whole number of seconds after midnight.
- bcrypt is abstract: a salted `hash` function and a `verify` relation, both passed in.
  - The salt that `genSalt` would draw is a parameter.
  - The only assumption made about bcrypt is `VerifiesOwnHashes`, and only where a lemma needs it.

Files: `wrappers.dfy` (Option, Result), `tables.dfy` (rows, error responses, first-match lookup),
`sequences.dfy` (lexicographic order, sort, projections), `directory.dfy`, `availability.dfy`,
`credentials.dfy` and `database.dfy`.

Behaviour of the code that the model keeps:

- The open window `BETWEEN '07:00:00' AND '18:00:00'` includes both bounds (`Directory.StatusBoundaries`).
- The derived status ignores each clinic's own `hora_abertura`/`hora_fechamento`: `Directory.DerivedStatus`
  takes only the current time.
- `login` strips non-digits from the stored cpf only. `alterarSenha` and `atualizarStatusVacina` match the
  cpf exactly.
  - On digit-only stored cpfs the two matches agree (`Credentials.CanonicalCpfMatchesAgree`).
  - On a formatted stored cpf they do not: the employee can log in but a password change finds nobody
    (`Credentials.FormattedCpfSplitsLoginFromPasswordChange`).
- `register` writes to `usuarios`, while `login` and `alterarSenha` read `funcionarios`.
  Registering therefore never affects login (`Store.Register` leaves `employees` unchanged).

## Model

| member | source | states |
|---|---|---|
| `Tables.EmployeeByCpf` | src/controllers/ubsController.js:102-105 | The employee found by cpf is the first row, in table order, whose cpf equals it exactly. It is `None` iff no row has that cpf. |
| `Sequences.SortBy` | src/controllers/ubsController.js:19 | `ORDER BY` returns a permutation of its input (same multiset, same length). |
| `Sequences.SortBySorted` | src/controllers/ubsController.js:70 | Under a total preorder, the sorted rows are in order for every pair of positions. |
| `Sequences.LexLeTransitive` | src/controllers/ubsController.js:19 | The name order is transitive, as `ORDER BY nome` needs. |
| `Directory.DerivedStatus` | src/controllers/ubsController.js:14-17 | The status is 'aberto' iff 07:00:00 <= now <= 18:00:00, both bounds included, and 'fechado' otherwise. |
| `Directory.StatusBoundaries` | src/controllers/ubsController.js:40-43 | The status is closed one second before 07:00:00 and open at it. It is open at 18:00:00 and closed one second after. |
| `Directory.ListarUbs` | src/controllers/ubsController.js:7-22 | Every clinic row appears as often as in the table, with the status derived from `now`. Nothing else appears. Rows are ordered by name. |
| `Directory.BuscarUbs` | src/controllers/ubsController.js:33-52 | 404 'UBS não encontrada' iff no clinic has the id. Otherwise the result is a clinic with that id and the derived status. |
| `Directory.ListarVacinasUbs` | src/controllers/ubsController.js:63-76 | Left join: every vaccine appears as often as in the table, carrying the clinic's label for it or NULL. The result is ordered by name and echoes `ubs_id`. It never returns a 404. |
| `Directory.EveryVaccineListedOnce` | src/controllers/ubsController.js:63-71 | With distinct vaccine rows, each vaccine is listed exactly once. |
| `Directory.UnknownClinicListsAllNull` | src/controllers/ubsController.js:60-76 | For a clinic with no availability rows, including an unknown clinic, the list has one row per vaccine, each with status NULL. |
| `Directory.JoinHistory` | src/controllers/ubsController.js:163-175 | Exactly the entries of the clinic that survive the inner joins, each as often as it occurs in the history, each with the employee's and vaccine's names. |
| `Directory.BuscarHistoricoAtualizacoes` | src/controllers/ubsController.js:152-179 | 404 iff the clinic is absent. Otherwise exactly the clinic's joined entries, ordered by date descending, then time descending. |
| `Directory.HistoryListsEveryEntry` | src/controllers/ubsController.js:172-176 | When an entry's employee and vaccine exist (the store keeps this), the clinic's history lists that entry. |
| `Availability.UpdateCheck` | src/controllers/ubsController.js:89-105 | Checks run in order: clinic, vaccine, employee. The first missing one gives its own 404. The check succeeds iff all three exist, and then the result is the id of the first employee with that exact cpf. |
| `Availability.PreviousForHistory` | src/controllers/ubsController.js:140 | The recorded previous status is never empty. A missing row, NULL or '' becomes 'Indisponível'; any other label is kept. |
| `Availability.Upsert` | src/controllers/ubsController.js:117-123 | The pair gets the new label, whether it was absent or present. Every other pair keeps its label. The key set grows by at most that pair. |
| `Availability.FreshPairRecordsIndisponivel` | src/controllers/ubsController.js:108-114 | For a never-set pair, the history records previous status 'Indisponível'. |
| `Availability.ConsecutiveUpdatesChain` | src/controllers/ubsController.js:117-141 | After one update with a truthy label, the next update records that label as previous. A second upsert of the pair overrides the first. |
| `Database.Store.AtualizarStatusVacina` | src/controllers/ubsController.js:84-149 | On a failed check it returns that 404 and changes nothing. On success the availability table becomes `Upsert(old, pair, status)` and exactly one entry is appended: (next id, employee id, clinic, vaccine, previous, new, date, time). Earlier entries, other tables and the invariants are unchanged. It returns the upserted row. |
| `Database.ConsecutiveUpdates` | src/controllers/ubsController.js:126-142 | Two updates of one pair ('Disponível', then 'Indisponível') append exactly two entries and leave earlier ones untouched. The second entry's previous status is 'Disponível'. |
| `Database.UpdateThenHistory` | src/controllers/ubsController.js:163-177 | After a successful update, the new entry appears in that clinic's history listing. |
| `Database.Store.Register` | src/controllers/authController.js:7-52 | If a user has the same email or the same cpf: 400 'Usuário já existe' and nothing is inserted. Otherwise exactly one user is appended with a fresh id, storing `hash(senha, salt)`, not the `senha` argument. No two users share an email or a cpf. |
| `Credentials.StripNonDigits` | src/controllers/authController.js:64 | The normalised cpf contains digits only. A digit-only cpf is left as it is. |
| `Credentials.StripNonDigitsKeepsDigits` | src/controllers/authController.js:64 | Normalising keeps every digit as often as it occurs and removes every other character. |
| `Credentials.StripNonDigitsOne` | src/controllers/authController.js:64 | A single character is kept iff it is a digit. |
| `Credentials.StripNonDigitsAppend` | src/controllers/authController.js:64 | Normalising works character by character: the normal form of a concatenation is the concatenation of the normal forms, so the digits keep their order. |
| `Credentials.ClinicNameOf` | src/controllers/authController.js:61-63 | `LEFT JOIN ubs`: the clinic's name is present iff the employee has a clinic id and a clinic with that id exists, and then it is that clinic's name; otherwise NULL. |
| `Credentials.EmployeeByNormalisedCpf` | src/controllers/authController.js:60-73 | Login selects the first employee, in table order, whose stored cpf, stripped of non-digits, equals the supplied cpf verbatim. |
| `Credentials.Login` | src/controllers/authController.js:55-103 | Every failure is the same 401 'CPF ou senha incorretos'. Success means the employee login selects for the cpf passes the check for its state; the response is that employee's first-access flag, cpf, name and clinic id, with the clinic's name from the left join. No match gives 401. |
| `Credentials.LoginFirstAccessPath` | src/controllers/authController.js:76-80 | For a first-access employee, login succeeds iff the password equals the stored plaintext. The result does not depend on `verify`. |
| `Credentials.LoginEstablishedPath` | src/controllers/authController.js:81-86 | For an established employee, login succeeds iff `verify(senha, stored)` holds. |
| `Credentials.LoginNeedsDigitOnlyCpf` | src/controllers/authController.js:59-71 | Only the stored side is normalised: a supplied cpf containing a non-digit always gets 401. |
| `Credentials.PasswordChangeCheck` | src/controllers/authController.js:110-133 | Checks run in order: missing or empty cpf → 400, missing or empty new password → 400, length < 6 → 400. Only then does an unknown cpf (exact match) give 404. When all checks pass and an employee has exactly that cpf, the check succeeds. |
| `Credentials.ShortPasswordRefusedForEveryCpf` | src/controllers/authController.js:120-123 | A new password of 1 to 5 characters is refused with 400 for every cpf, whether an employee has it or not. |
| `Credentials.SetPassword` | src/controllers/authController.js:139-143 | Every employee with exactly that cpf gets the new hash and `primeiro_acesso = false`. Every other employee is unchanged. |
| `Credentials.SetPasswordNeverBackToFirstAccess` | src/controllers/authController.js:139-143 | A password change never puts an established account back into first access. |
| `Credentials.LoginAfterPasswordChange` | src/controllers/authController.js:136-143 | When the account login selects has exactly the changed cpf, after the change it is established and logs in with the new password through `verify`. If login selects an account whose stored cpf only strips to the same digits, that account is unchanged. |
| `Credentials.CanonicalCpfMatchesAgree` | src/controllers/authController.js:126-129 | On a digit-only stored cpf, login's normalised match and the password change's exact match agree. |
| `Credentials.FormattedCpfSplitsLoginFromPasswordChange` | src/controllers/authController.js:60-66 | Stored cpf '12-3': login with '123' succeeds, but a password change for '123' gives 404. |
| `Database.Store.AlterarSenha` | src/controllers/authController.js:106-157 | On a failed check it returns that error and leaves employees unchanged. On success employees become `SetPassword(old, cpf, hash(nova_senha, salt))` and the response reports `primeiro_acesso: false`. At least one row is updated. No account returns to first access, and other tables are unchanged. |

## Left out

- Without `ORDER BY`, SQL returns matching rows in no fixed order, and an UPDATE can change that order.
  The model takes the first row in table order. When several employees match a cpf (exactly, or after
  stripping for login), the code may use any of them. `Tables.EmployeeByCpf`, `Credentials.EmployeeByNormalisedCpf`,
  `Credentials.Login` and `Credentials.LoginAfterPasswordChange` describe the model's choice. Employee cpfs
  are not required to be unique.
- PostgreSQL itself is not modelled: connections, SQL text and collation. String order is code-point
  lexicographic (`Sequences.LexLe`), not the database locale's collation.
- The `catch` → 500 branches and `console.error` logging are not modelled. The model has no store failure.
  The 500 after an UPDATE that matched no row (authController.js:145-147) cannot happen here: the row was
  found just before, in the same atomic step.
- JWT signing and the 24h expiry in `register` (authController.js:32-36) are not modelled. The model
  returns only the user part of the response.
- bcrypt's salting and hashing are abstract (a `hash` parameter and a `verify` relation).
- Concurrency is not modelled. Each request is one atomic step, so the read-then-upsert race between
  concurrent updates of a pair is not captured.
- Formatting is not modelled: the `CONCAT` of the address is an opaque `endereco` string, and JSON shapes
  are reduced to status code, message and the returned rows.
- Request fields that may be absent are modelled only where the code tests them (`cpf` and `nova_senha` of
  `alterarSenha`) and for the `status` label, which may be NULL. Elsewhere a missing field would reach SQL
  as NULL or make bcrypt throw (a 500); that is not modelled.
- Times have one-second resolution. CURRENT_TIME has sub-second precision, so 18:00:00.5 is already
  'fechado' in the database; the time zone of CURRENT_TIME is not modelled.
- Non-numeric `:id` path parameters, which make PostgreSQL raise a cast error (a 500), are not modelled.
  Ids are integers.
- Credentials.PasswordChangeCheck: the length check counts Unicode characters. JavaScript's `length`
  counts UTF-16 code units, so a password with characters outside the Basic Multilingual Plane can be
  5 characters here but 6 or more in JavaScript.
- The routing table (src/routes/ubsRoutes.js) and CORS setup (src/app.js) hold no logic and are not
  modelled. src/routes/authRoutes.js and src/config/db.js are not part of this model.
