/**
 * The credential rules of src/controllers/authController.js: the duplicate
 * check of `register`, the two-path decision of `login`, and the validation
 * order and account transition of `alterarSenha`. bcrypt is abstract: a
 * salted `hash` function and a `verify` relation (bcrypt.compare), both
 * passed in.
 */
module Credentials {
  import opened Wrappers
  import opened Tables

  /** The salt `bcrypt.genSalt(10)` draws; randomness is a parameter. */
  type Salt = nat
  type Hasher = (string, Salt) -> string
  type Verifier = (string, string) -> bool

  /** bcrypt's promise: a password verifies against every hash of itself. */
  ghost predicate VerifiesOwnHashes(hash: Hasher, verify: Verifier) {
    forall p, salt :: verify(p, hash(p, salt))
  }

  /** `SELECT * FROM usuarios WHERE email = $1 OR cpf = $2` returns a row. */
  predicate UserExists(users: seq<User>, email: string, cpf: string) {
    exists i :: 0 <= i < |users| && (users[i].email == email || users[i].cpf == cpf)
  }

  predicate IsDigit(c: char) { '0' <= c <= '9' }

  predicate AllDigits(s: string) {
    forall i :: 0 <= i < |s| ==> IsDigit(s[i])
  }

  /** `REGEXP_REPLACE(cpf, '[^0-9]', '', 'g')`: the digits of `s`, in order. */
  function StripNonDigits(s: string): (r: string)
    ensures AllDigits(r)
    ensures |r| <= |s|
    ensures AllDigits(s) ==> r == s
  {
    if s == [] then []
    else
      assert s == [s[0]] + s[1..];
      (if IsDigit(s[0]) then [s[0]] else []) + StripNonDigits(s[1..])
  }

  /** Stripping keeps every digit, as often as it occurs, and drops everything else. */
  lemma {:induction false} StripNonDigitsKeepsDigits(s: string, c: char)
    ensures multiset(StripNonDigits(s))[c] == if IsDigit(c) then multiset(s)[c] else 0
  {
    if s != [] {
      StripNonDigitsKeepsDigits(s[1..], c);
      assert s == [s[0]] + s[1..];
    }
  }

  /** One character is kept iff it is a digit. */
  lemma StripNonDigitsOne(c: char)
    ensures StripNonDigits([c]) == if IsDigit(c) then [c] else []
  {
  }

  /**
   * Stripping works character by character in place: the digits keep their
   * order. With `StripNonDigitsOne` this determines the function.
   */
  lemma {:induction false} StripNonDigitsAppend(a: string, b: string)
    ensures StripNonDigits(a + b) == StripNonDigits(a) + StripNonDigits(b)
  {
    if a != [] {
      assert (a + b)[0] == a[0] && (a + b)[1..] == a[1..] + b;
      StripNonDigitsAppend(a[1..], b);
    } else {
      assert a + b == b;
    }
  }

  /**
   * The employee `login` looks at: the first whose stored cpf, stripped of
   * non-digits, equals the supplied cpf verbatim.
   */
  function EmployeeByNormalisedCpf(employees: seq<Employee>, cpf: string): (r: Option<nat>)
    ensures r.Some? ==> r.value < |employees| && StripNonDigits(employees[r.value].cpf) == cpf
    ensures r.Some? ==> forall j :: 0 <= j < r.value ==> StripNonDigits(employees[j].cpf) != cpf
    ensures r.None? <==> forall j :: 0 <= j < |employees| ==> StripNonDigits(employees[j].cpf) != cpf
  {
    FirstIndexWhere(employees, (e: Employee) => StripNonDigits(e.cpf) == cpf)
  }

  /** `k` is the employee `login` selects for `cpf`. */
  ghost predicate SelectedForLogin(employees: seq<Employee>, cpf: string, k: nat) {
    && k < |employees|
    && StripNonDigits(employees[k].cpf) == cpf
    && forall j :: 0 <= j < k ==> StripNonDigits(employees[j].cpf) != cpf
  }

  /** The `user` part of a successful login response. */
  datatype LoginView = LoginView(primeiroAcesso: bool, cpf: string, nome: string,
                                 idUbs: Option<Id>, nomeUbs: Option<string>)

  /** `LEFT JOIN ubs ON f.id_ubs = ubs.id`: the clinic's name, or NULL. */
  function ClinicNameOf(clinics: seq<Clinic>, idUbs: Option<Id>): (r: Option<string>)
    ensures r.Some? <==> idUbs.Some? && HasClinic(clinics, idUbs.value)
    ensures r.Some? ==> exists k :: 0 <= k < |clinics| && clinics[k].id == idUbs.value && r.value == clinics[k].nome
  {
    match idUbs
    case None => None
    case Some(id) =>
      match FirstIndexWhere(clinics, (c: Clinic) => c.id == id)
      case None => None
      case Some(k) => Some(clinics[k].nome)
  }

  /**
   * `login`: a first-access account is checked by plaintext equality, an
   * established one by `verify` against the stored hash; every failure is the
   * same 401. It changes nothing.
   */
  function Login(employees: seq<Employee>, clinics: seq<Clinic>, cpf: string, senha: string, verify: Verifier)
    : (r: Result<LoginView, Failure>)
    ensures r.Err? ==> r.error == BadCredentials
    ensures r.Ok? ==> exists k: nat :: && SelectedForLogin(employees, cpf, k)
                                  && (if employees[k].primeiroAcesso then senha == employees[k].senha
                                      else verify(senha, employees[k].senha))
                                  && r.value == LoginView(employees[k].primeiroAcesso, employees[k].cpf,
                                                          employees[k].nome, employees[k].idUbs,
                                                          ClinicNameOf(clinics, employees[k].idUbs))
    ensures (forall i :: 0 <= i < |employees| ==> StripNonDigits(employees[i].cpf) != cpf) ==> r.Err?
  {
    match EmployeeByNormalisedCpf(employees, cpf)
    case None => Err(BadCredentials)
    case Some(k) =>
      var f := employees[k];
      if f.primeiroAcesso && senha != f.senha then Err(BadCredentials)
      else if !f.primeiroAcesso && !verify(senha, f.senha) then Err(BadCredentials)
      else Ok(LoginView(f.primeiroAcesso, f.cpf, f.nome, f.idUbs, ClinicNameOf(clinics, f.idUbs)))
  }

  /** First access: login succeeds iff the password equals the stored plaintext, whatever `verify` says. */
  lemma LoginFirstAccessPath(employees: seq<Employee>, clinics: seq<Clinic>, cpf: string, senha: string,
                             verify: Verifier, other: Verifier, k: nat)
    requires SelectedForLogin(employees, cpf, k) && employees[k].primeiroAcesso
    ensures Login(employees, clinics, cpf, senha, verify).Ok? <==> senha == employees[k].senha
    ensures Login(employees, clinics, cpf, senha, verify) == Login(employees, clinics, cpf, senha, other)
  {
  }

  /** Established account: login succeeds iff `verify` accepts the password against the stored hash. */
  lemma LoginEstablishedPath(employees: seq<Employee>, clinics: seq<Clinic>, cpf: string, senha: string,
                             verify: Verifier, k: nat)
    requires SelectedForLogin(employees, cpf, k) && !employees[k].primeiroAcesso
    ensures Login(employees, clinics, cpf, senha, verify).Ok? <==> verify(senha, employees[k].senha)
  {
  }

  /** Only the stored cpf is normalised: a supplied cpf with punctuation never logs in. */
  lemma LoginNeedsDigitOnlyCpf(employees: seq<Employee>, clinics: seq<Clinic>, cpf: string,
                               senha: string, verify: Verifier)
    requires !AllDigits(cpf)
    ensures Login(employees, clinics, cpf, senha, verify) == Err(BadCredentials)
  {
  }

  /** The `{primeiro_acesso: false}` body of a successful password change. */
  datatype PasswordChanged = PasswordChanged(primeiroAcesso: bool)

  /**
   * The guards of `alterarSenha`, in source order: cpf missing or empty, new
   * password missing or empty, new password shorter than 6, and only then no
   * employee with exactly this cpf. On success, the cpf and new password.
   */
  function PasswordChangeCheck(employees: seq<Employee>, cpf: Option<string>, novaSenha: Option<string>)
    : (r: Result<(string, string), Failure>)
    ensures Falsy(cpf) ==> r == Err(CpfMissing)
    ensures !Falsy(cpf) && Falsy(novaSenha) ==> r == Err(NewPasswordMissing)
    ensures !Falsy(cpf) && !Falsy(novaSenha) && |novaSenha.value| < 6 ==> r == Err(PasswordTooShort)
    ensures (&& !Falsy(cpf) && !Falsy(novaSenha) && |novaSenha.value| >= 6
             && forall i :: 0 <= i < |employees| ==> employees[i].cpf != cpf.value)
            ==> r == Err(EmployeeNotFound)
    ensures (&& !Falsy(cpf) && !Falsy(novaSenha) && |novaSenha.value| >= 6
             && exists i :: 0 <= i < |employees| && employees[i].cpf == cpf.value)
            ==> r.Ok?
    ensures r.Ok? ==> && cpf.Some? && novaSenha.Some? && r.value == (cpf.value, novaSenha.value)
                      && |novaSenha.value| >= 6
                      && exists i :: 0 <= i < |employees| && employees[i].cpf == cpf.value
  {
    if Falsy(cpf) then Err(CpfMissing)
    else if Falsy(novaSenha) then Err(NewPasswordMissing)
    else if |novaSenha.value| < 6 then Err(PasswordTooShort)
    else if EmployeeByCpf(employees, cpf.value).None? then Err(EmployeeNotFound)
    else Ok((cpf.value, novaSenha.value))
  }

  /** A short new password is refused for every cpf, whether or not an employee has it. */
  lemma ShortPasswordRefusedForEveryCpf(employees: seq<Employee>, cpf: string, novaSenha: string)
    requires cpf != "" && 0 < |novaSenha| < 6
    ensures PasswordChangeCheck(employees, Some(cpf), Some(novaSenha)) == Err(PasswordTooShort)
  {
  }

  /**
   * `UPDATE funcionarios SET senha = $1, primeiro_acesso = false WHERE cpf = $2`:
   * every row with exactly this cpf becomes established with the new hash;
   * all other rows stay as they were.
   */
  function SetPassword(employees: seq<Employee>, cpf: string, hashed: string): (r: seq<Employee>)
    ensures |r| == |employees|
    ensures forall i :: 0 <= i < |r| && employees[i].cpf == cpf ==>
              r[i] == employees[i].(senha := hashed, primeiroAcesso := false)
    ensures forall i :: 0 <= i < |r| && employees[i].cpf != cpf ==> r[i] == employees[i]
  {
    if employees == [] then []
    else
      var e := employees[0];
      [if e.cpf == cpf then e.(senha := hashed, primeiroAcesso := false) else e]
        + SetPassword(employees[1..], cpf, hashed)
  }

  /** A password change rewrites credentials only: ids and cpfs stay where they were. */
  lemma SetPasswordKeepsKeys(employees: seq<Employee>, cpf: string, hashed: string)
    ensures forall i :: 0 <= i < |employees| ==>
              && SetPassword(employees, cpf, hashed)[i].id == employees[i].id
              && SetPassword(employees, cpf, hashed)[i].cpf == employees[i].cpf
  {
  }

  /** The credential state machine only moves from first access to established. */
  ghost predicate NeverBackToFirstAccess(before: seq<Employee>, after: seq<Employee>) {
    && |before| == |after|
    && forall i :: 0 <= i < |before| && !before[i].primeiroAcesso ==> !after[i].primeiroAcesso
  }

  lemma SetPasswordNeverBackToFirstAccess(employees: seq<Employee>, cpf: string, hashed: string)
    ensures NeverBackToFirstAccess(employees, SetPassword(employees, cpf, hashed))
  {
  }

  /**
   * After a password change for `cpf`, the employee `login` selects (when it
   * is one of the changed rows) is established and logs in with the new
   * password through `verify`.
   */
  lemma LoginAfterPasswordChange(employees: seq<Employee>, clinics: seq<Clinic>, cpf: string, loginCpf: string,
                                 novaSenha: string, hash: Hasher, salt: Salt, verify: Verifier, k: nat)
    requires VerifiesOwnHashes(hash, verify)
    requires SelectedForLogin(employees, loginCpf, k) && employees[k].cpf == cpf
    ensures Login(SetPassword(employees, cpf, hash(novaSenha, salt)), clinics, loginCpf, novaSenha, verify).Ok?
    ensures !Login(SetPassword(employees, cpf, hash(novaSenha, salt)), clinics, loginCpf, novaSenha, verify)
              .value.primeiroAcesso
  {
    var after := SetPassword(employees, cpf, hash(novaSenha, salt));
    assert SelectedForLogin(after, loginCpf, k);
    assert EmployeeByNormalisedCpf(after, loginCpf) == Some(k);
  }

  /** On digit-only stored cpfs, `login`'s normalised match and `alterarSenha`'s exact match agree. */
  lemma CanonicalCpfMatchesAgree(e: Employee, cpf: string)
    requires AllDigits(e.cpf)
    ensures StripNonDigits(e.cpf) == cpf <==> e.cpf == cpf
  {
  }

  /**
   * On a formatted stored cpf they do not: the employee logs in with the bare
   * digits, but a password change with the same digits finds nobody.
   */
  lemma FormattedCpfSplitsLoginFromPasswordChange(verify: Verifier)
    ensures var e := Employee(1, "Ana", "12-3", "provisoria", true, None);
            && Login([e], [], "123", "provisoria", verify).Ok?
            && PasswordChangeCheck([e], Some("123"), Some("definitiva")) == Err(EmployeeNotFound)
  {
  }
}
