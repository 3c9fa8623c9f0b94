/**
 * The database the handlers work on, as one object whose tables are fields,
 * and the three handlers that change it: `atualizarStatusVacina`
 * (src/controllers/ubsController.js), `register` and `alterarSenha`
 * (src/controllers/authController.js). Each request is one atomic,
 * sequential step; each method is proved against the decision functions of
 * modules Availability and Credentials.
 */
module Database {
  import opened Wrappers
  import opened Tables
  import opened Availability
  import opened Credentials
  import Directory

  /** The `user` part of the response to a successful `register`. */
  datatype UserView = UserView(id: Id, nome: string, email: string, tipoUsuario: string)

  class Store {
    var clinics: seq<Clinic>
    var vaccines: seq<Vaccine>
    var employees: seq<Employee>
    var users: seq<User>
    var availability: AvailabilityTable
    var history: seq<HistoryEntry>
    /** The next values of the serial columns usuarios.id and historico_atualizacoes.id. */
    var nextUserId: Id
    var nextHistoryId: Id

    /**
     * The keys and references the schema keeps: unique ids, availability and
     * history rows that point at existing rows, history ids in insertion
     * order, and no two users sharing an email or a cpf.
     */
    ghost predicate Valid()
      reads this
    {
      && UniqueClinicIds(clinics) && UniqueVaccineIds(vaccines) && UniqueEmployeeIds(employees)
      && (forall k :: k in availability ==> HasClinic(clinics, k.0) && HasVaccine(vaccines, k.1))
      && (forall i :: 0 <= i < |history| ==>
            && HasClinic(clinics, history[i].idUbs) && HasVaccine(vaccines, history[i].idVacina)
            && HasEmployee(employees, history[i].idFuncionario) && history[i].id < nextHistoryId)
      && (forall i, j :: 0 <= i < j < |history| ==> history[i].id < history[j].id)
      && (forall i :: 0 <= i < |users| ==> users[i].id < nextUserId)
      && (forall i, j :: 0 <= i < j < |users| ==>
            users[i].id < users[j].id && users[i].email != users[j].email && users[i].cpf != users[j].cpf)
    }

    /** A database holding the reference tables and no users, availability or history yet. */
    constructor (clinics: seq<Clinic>, vaccines: seq<Vaccine>, employees: seq<Employee>)
      requires UniqueClinicIds(clinics) && UniqueVaccineIds(vaccines) && UniqueEmployeeIds(employees)
      ensures Valid()
      ensures this.clinics == clinics && this.vaccines == vaccines && this.employees == employees
      ensures users == [] && availability == map[] && history == []
    {
      this.clinics := clinics;
      this.vaccines := vaccines;
      this.employees := employees;
      users := [];
      availability := map[];
      history := [];
      nextUserId := 1;
      nextHistoryId := 1;
    }

    /**
     * `atualizarStatusVacina`: after the checks of `UpdateCheck`, upsert the
     * pair's label and append exactly one history entry carrying the previous
     * and the new label; on any failure nothing changes. The result is the
     * upserted row.
     */
    method AtualizarStatusVacina(id: Id, vacinaId: Id, status: Label, cpfFuncionario: string,
                                 today: Date, now: TimeOfDay) returns (r: Result<AvailabilityRow, Failure>)
      requires Valid()
      modifies this
      ensures Valid()
      ensures clinics == old(clinics) && vaccines == old(vaccines) && employees == old(employees)
      ensures users == old(users) && nextUserId == old(nextUserId)
      ensures match UpdateCheck(clinics, vaccines, employees, id, vacinaId, cpfFuncionario)
        case Err(f) =>
          && r == Err(f)
          && availability == old(availability) && history == old(history) && nextHistoryId == old(nextHistoryId)
        case Ok(funcionario) =>
          && r == Ok(AvailabilityRow(id, vacinaId, status))
          && availability == Upsert(old(availability), id, vacinaId, status)
          && history == old(history) + [HistoryEntry(old(nextHistoryId), funcionario, id, vacinaId,
                                                     PreviousForHistory(StatusAt(old(availability), id, vacinaId)),
                                                     status, today, now)]
          && nextHistoryId == old(nextHistoryId) + 1
      ensures r.Ok? <==> UpdateCheck(clinics, vaccines, employees, id, vacinaId, cpfFuncionario).Ok?
      ensures r.Ok? ==> StatusAt(availability, r.value.idUbs, r.value.idVacina) == r.value.status
    {
      ghost var check := UpdateCheck(clinics, vaccines, employees, id, vacinaId, cpfFuncionario);
      if !HasClinic(clinics, id) {
        assert check == Err(UbsNotFound);
        return Err(UbsNotFound);
      }
      if !HasVaccine(vaccines, vacinaId) {
        assert check == Err(VaccineNotFound);
        return Err(VaccineNotFound);
      }
      var found := EmployeeByCpf(employees, cpfFuncionario);
      if found.None? {
        assert check == Err(EmployeeNotFound);
        return Err(EmployeeNotFound);
      }
      var funcionario := employees[found.value].id;
      assert check == Ok(funcionario);
      assert HasEmployee(employees, funcionario);
      var statusAnterior := StatusAt(availability, id, vacinaId);
      availability := Upsert(availability, id, vacinaId, status);
      history := history + [HistoryEntry(nextHistoryId, funcionario, id, vacinaId,
                                         PreviousForHistory(statusAnterior), status, today, now)];
      nextHistoryId := nextHistoryId + 1;
      r := Ok(AvailabilityRow(id, vacinaId, status));
    }

    /**
     * `register`: refuse an email or cpf already on file; otherwise insert
     * exactly one user, whose stored password is `hash(senha, salt)`, not the
     * `senha` argument itself.
     */
    method Register(nome: string, email: string, senha: string, cpf: string, tipoUsuario: string,
                    hash: Hasher, salt: Salt) returns (r: Result<UserView, Failure>)
      requires Valid()
      modifies this
      ensures Valid()
      ensures clinics == old(clinics) && vaccines == old(vaccines) && employees == old(employees)
      ensures availability == old(availability) && history == old(history) && nextHistoryId == old(nextHistoryId)
      ensures UserExists(old(users), email, cpf) ==>
                r == Err(UserAlreadyExists) && users == old(users) && nextUserId == old(nextUserId)
      ensures !UserExists(old(users), email, cpf) ==>
                && r == Ok(UserView(old(nextUserId), nome, email, tipoUsuario))
                && users == old(users) + [User(old(nextUserId), nome, email, hash(senha, salt), cpf, tipoUsuario)]
                && nextUserId == old(nextUserId) + 1
    {
      if UserExists(users, email, cpf) {
        return Err(UserAlreadyExists);
      }
      var hashedPassword := hash(senha, salt);
      var user := User(nextUserId, nome, email, hashedPassword, cpf, tipoUsuario);
      users := users + [user];
      nextUserId := nextUserId + 1;
      r := Ok(UserView(user.id, user.nome, user.email, user.tipoUsuario));
    }

    /**
     * `alterarSenha`: after the guards of `PasswordChangeCheck`, every
     * employee with exactly this cpf gets the hash of the new password and
     * leaves first access; on any failure nothing changes.
     */
    method AlterarSenha(cpf: Option<string>, novaSenha: Option<string>, hash: Hasher, salt: Salt)
      returns (r: Result<PasswordChanged, Failure>)
      requires Valid()
      modifies this
      ensures Valid()
      ensures clinics == old(clinics) && vaccines == old(vaccines) && users == old(users)
      ensures availability == old(availability) && history == old(history)
      ensures nextUserId == old(nextUserId) && nextHistoryId == old(nextHistoryId)
      ensures match PasswordChangeCheck(old(employees), cpf, novaSenha)
        case Err(f) => r == Err(f) && employees == old(employees)
        case Ok(_) =>
          && r == Ok(PasswordChanged(false))
          && employees == SetPassword(old(employees), cpf.value, hash(novaSenha.value, salt))
      ensures NeverBackToFirstAccess(old(employees), employees)
      ensures r.Ok? ==> exists i :: 0 <= i < |employees| && employees[i].cpf == cpf.value
                                  && !employees[i].primeiroAcesso
    {
      if Falsy(cpf) {
        return Err(CpfMissing);
      }
      if Falsy(novaSenha) {
        return Err(NewPasswordMissing);
      }
      if |novaSenha.value| < 6 {
        return Err(PasswordTooShort);
      }
      if EmployeeByCpf(employees, cpf.value).None? {
        return Err(EmployeeNotFound);
      }
      var senhaHash := hash(novaSenha.value, salt);
      ghost var before := employees;
      employees := SetPassword(employees, cpf.value, senhaHash);
      SetPasswordKeepsKeys(before, cpf.value, senhaHash);
      SetPasswordNeverBackToFirstAccess(before, cpf.value, senhaHash);
      assert forall id :: HasEmployee(before, id) ==> HasEmployee(employees, id);
      r := Ok(PasswordChanged(false));
    }
  }

  /**
   * Two consecutive updates of one pair: two new history entries, earlier
   * entries untouched, the second recording the first's label as previous.
   */
  method ConsecutiveUpdates(store: Store, ubs: Id, vacina: Id, cpf: string, today: Date,
                            first: TimeOfDay, second: TimeOfDay)
    requires store.Valid()
    requires HasClinic(store.clinics, ubs) && HasVaccine(store.vaccines, vacina)
    requires EmployeeByCpf(store.employees, cpf).Some?
    modifies store
    ensures store.Valid()
    ensures |store.history| == |old(store.history)| + 2
    ensures store.history[..|old(store.history)|] == old(store.history)
    ensures store.history[|store.history| - 2].statusAnterior
            == PreviousForHistory(StatusAt(old(store.availability), ubs, vacina))
    ensures store.history[|store.history| - 1].statusAnterior == "Disponível"
    ensures StatusAt(store.availability, ubs, vacina) == Some(Indisponivel)
  {
    var r1 := store.AtualizarStatusVacina(ubs, vacina, Some("Disponível"), cpf, today, first);
    var r2 := store.AtualizarStatusVacina(ubs, vacina, Some(Indisponivel), cpf, today, second);
  }

  /** A successful update shows up in the clinic's history listing. */
  method UpdateThenHistory(store: Store, ubs: Id, vacina: Id, status: Label, cpf: string,
                           today: Date, now: TimeOfDay) returns (r: Result<AvailabilityRow, Failure>)
    requires store.Valid()
    modifies store
    ensures store.Valid()
    ensures r.Ok? ==> |store.history| == |old(store.history)| + 1
    ensures r.Ok? ==>
      var entry := store.history[|store.history| - 1];
      && entry.idUbs == ubs && entry.idVacina == vacina && entry.statusAtual == status
      && Directory.JoinEntry(entry, store.employees, store.vaccines).Some?
      && Directory.JoinEntry(entry, store.employees, store.vaccines).value
         in Directory.BuscarHistoricoAtualizacoes(store.clinics, store.employees, store.vaccines,
                                                  store.history, ubs).value
  {
    r := store.AtualizarStatusVacina(ubs, vacina, status, cpf, today, now);
    if r.Ok? {
      var entry := store.history[|store.history| - 1];
      Directory.HistoryListsEveryEntry(store.clinics, store.employees, store.vaccines, store.history, ubs, entry);
    }
  }
}
