/**
 * The rows of the InfoVac database (tables ubs, vacinas, funcionarios,
 * usuarios, disponibilidade_vacinas and historico_atualizacoes), the error
 * responses the handlers send, and the "first matching row in table order"
 * lookup the model uses for every `rows[0]` in the controllers.
 */
module Tables {
  import opened Wrappers

  type Id = int

  /** A time of day in whole seconds after midnight (CURRENT_TIME). */
  type TimeOfDay = t: int | 0 <= t < 86400

  /** A calendar day as a day number (CURRENT_DATE); later days are larger. */
  type Date = int

  /** An availability label as stored; SQL NULL is `None`. */
  type Label = Option<string>

  /** A row of `ubs`; `endereco` stands for the composed address string. */
  datatype Clinic = Clinic(id: Id, nome: string, endereco: string,
                           horaAbertura: TimeOfDay, horaFechamento: TimeOfDay)

  /** A row of `vacinas`. */
  datatype Vaccine = Vaccine(id: Id, nome: string)

  /** A row of `funcionarios`: `senha` is plaintext while `primeiroAcesso` holds, a hash afterwards. */
  datatype Employee = Employee(id: Id, nome: string, cpf: string, senha: string,
                               primeiroAcesso: bool, idUbs: Option<Id>)

  /** A row of `usuarios`. */
  datatype User = User(id: Id, nome: string, email: string, senha: string,
                       cpf: string, tipoUsuario: string)

  /**
   * The table `disponibilidade_vacinas`, keyed by its unique pair
   * (id_ubs, id_vacina): at most one label per pair.
   */
  type AvailabilityTable = map<(Id, Id), Label>

  /** The label stored for a pair, or NULL when the pair has no row. */
  function StatusAt(availability: AvailabilityTable, ubs: Id, vacina: Id): Label {
    if (ubs, vacina) in availability then availability[(ubs, vacina)] else None
  }

  /** A row of `disponibilidade_vacinas`, as `RETURNING *` gives it back. */
  datatype AvailabilityRow = AvailabilityRow(idUbs: Id, idVacina: Id, status: Label)

  /** A row of `historico_atualizacoes`. */
  datatype HistoryEntry = HistoryEntry(id: Id, idFuncionario: Id, idUbs: Id, idVacina: Id,
                                       statusAnterior: string, statusAtual: Label,
                                       data: Date, hora: TimeOfDay)

  /** An error response: HTTP status code and the `error` message of its JSON body. */
  datatype Failure = Failure(code: nat, message: string)

  const UbsNotFound := Failure(404, "UBS não encontrada")
  const VaccineNotFound := Failure(404, "Vacina não encontrada")
  const EmployeeNotFound := Failure(404, "Funcionário não encontrado")
  const UserAlreadyExists := Failure(400, "Usuário já existe")
  const BadCredentials := Failure(401, "CPF ou senha incorretos")
  const CpfMissing := Failure(400, "CPF não fornecido")
  const NewPasswordMissing := Failure(400, "Nova senha não fornecida")
  const PasswordTooShort := Failure(400, "A senha deve ter pelo menos 6 caracteres")

  /**
   * The index of the first row satisfying `p`: what `rows[0]` of a
   * `SELECT ... WHERE p` gives when rows come back in table order.
   */
  function FirstIndexWhere<T>(s: seq<T>, p: T -> bool): (r: Option<nat>)
    ensures r.Some? ==> r.value < |s| && p(s[r.value])
    ensures r.Some? ==> forall j :: 0 <= j < r.value ==> !p(s[j])
    ensures r.None? <==> forall j :: 0 <= j < |s| ==> !p(s[j])
  {
    if s == [] then None
    else if p(s[0]) then Some(0)
    else match FirstIndexWhere(s[1..], p)
      case None => None
      case Some(k) => Some(k + 1)
  }

  predicate HasClinic(clinics: seq<Clinic>, id: Id) {
    exists i :: 0 <= i < |clinics| && clinics[i].id == id
  }

  predicate HasVaccine(vaccines: seq<Vaccine>, id: Id) {
    exists i :: 0 <= i < |vaccines| && vaccines[i].id == id
  }

  predicate HasEmployee(employees: seq<Employee>, id: Id) {
    exists i :: 0 <= i < |employees| && employees[i].id == id
  }

  /** JavaScript falsiness of a string that may be null or absent. */
  predicate Falsy(x: Option<string>) {
    x.None? || x.value == ""
  }

  /** `SELECT ... FROM funcionarios WHERE cpf = $1`, first row: an exact, unnormalised match. */
  function EmployeeByCpf(employees: seq<Employee>, cpf: string): (r: Option<nat>)
    ensures r.Some? ==> r.value < |employees| && employees[r.value].cpf == cpf
    ensures r.Some? ==> forall j :: 0 <= j < r.value ==> employees[j].cpf != cpf
    ensures r.None? <==> forall j :: 0 <= j < |employees| ==> employees[j].cpf != cpf
  {
    FirstIndexWhere(employees, (e: Employee) => e.cpf == cpf)
  }

  /** Primary keys: no two rows of a table share an id. */
  ghost predicate UniqueClinicIds(clinics: seq<Clinic>) {
    forall i, j :: 0 <= i < j < |clinics| ==> clinics[i].id != clinics[j].id
  }

  ghost predicate UniqueVaccineIds(vaccines: seq<Vaccine>) {
    forall i, j :: 0 <= i < j < |vaccines| ==> vaccines[i].id != vaccines[j].id
  }

  ghost predicate UniqueEmployeeIds(employees: seq<Employee>) {
    forall i, j :: 0 <= i < j < |employees| ==> employees[i].id != employees[j].id
  }
}
