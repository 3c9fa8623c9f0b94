/**
 * The read side of the clinic controller (src/controllers/ubsController.js):
 * listing and fetching clinics with their derived open/closed status, the
 * per-clinic vaccine list, and the clinic's change history. Each handler is
 * a pure function of the tables it queries.
 */
module Directory {
  import opened Wrappers
  import opened Tables
  import opened Sequences

  /** The fixed daily window of `BETWEEN '07:00:00' AND '18:00:00'`, both bounds included. */
  const OpensAt: TimeOfDay := 7 * 3600
  const ClosesAt: TimeOfDay := 18 * 3600

  const Aberto := "aberto"
  const Fechado := "fechado"

  /**
   * The derived status of every clinic. It depends on the time of day only,
   * never on the clinic's own `hora_abertura`/`hora_fechamento`.
   */
  function DerivedStatus(now: TimeOfDay): (r: string)
    ensures r == Aberto <==> OpensAt <= now <= ClosesAt
    ensures r == Fechado <==> now < OpensAt || ClosesAt < now
  {
    if OpensAt <= now <= ClosesAt then Aberto else Fechado
  }

  /** The status flips exactly after 18:00:00 and at 07:00:00. */
  lemma StatusBoundaries()
    ensures DerivedStatus(OpensAt - 1) == Fechado && DerivedStatus(OpensAt) == Aberto
    ensures DerivedStatus(ClosesAt) == Aberto && DerivedStatus(ClosesAt + 1) == Fechado
  {
  }

  /** A clinic row as listed: its columns together with the derived status. */
  datatype ClinicView = ClinicView(clinic: Clinic, status: string)

  /** `ORDER BY nome` over anything with a name. */
  function NameLe<T>(name: T -> string): (T, T) -> bool {
    (a: T, b: T) => LexLe(name(a), name(b))
  }

  lemma NameLeTotalPreorder<T(!new)>(name: T -> string)
    ensures TotalPreorder(NameLe(name))
  {
    forall a: T, b: T ensures NameLe(name)(a, b) || NameLe(name)(b, a) {
      LexLeTotal(name(a), name(b));
    }
    forall a: T, b: T, c: T | NameLe(name)(a, b) && NameLe(name)(b, c)
      ensures NameLe(name)(a, c)
    {
      LexLeTransitive(name(a), name(b), name(c));
    }
  }

  function ClinicName(v: ClinicView): string { v.clinic.nome }

  /**
   * `listarUBS`: every clinic row, as often as it occurs in the table, each
   * with the status derived from `now`, ordered by name.
   */
  function ListarUbs(clinics: seq<Clinic>, now: TimeOfDay): (r: seq<ClinicView>)
    ensures |r| == |clinics|
    ensures SortedBy(r, NameLe(ClinicName))
    ensures forall c :: multiset(r)[ClinicView(c, DerivedStatus(now))] == multiset(clinics)[c]
    ensures forall v :: v in r ==> v.clinic in clinics && v.status == DerivedStatus(now)
  {
    var view := (c: Clinic) => ClinicView(c, DerivedStatus(now));
    var views := MapSeq(clinics, view);
    NameLeTotalPreorder(ClinicName);
    SortBySorted(views, NameLe(ClinicName));
    ImageMembers(clinics, view, SortBy(views, NameLe(ClinicName)));
    assert forall c :: multiset(views)[view(c)] == multiset(clinics)[c] by {
      forall c ensures multiset(views)[view(c)] == multiset(clinics)[c] {
        MapSeqCount(clinics, view, c);
      }
    }
    SortBy(views, NameLe(ClinicName))
  }

  /**
   * `buscarUBS`: 404 when no clinic has the id; otherwise the clinic with
   * that id and the derived status.
   */
  function BuscarUbs(clinics: seq<Clinic>, id: Id, now: TimeOfDay): (r: Result<ClinicView, Failure>)
    ensures r.Err? <==> !HasClinic(clinics, id)
    ensures r.Err? ==> r.error == UbsNotFound
    ensures r.Ok? ==> r.value.clinic in clinics && r.value.clinic.id == id
    ensures r.Ok? ==> r.value.status == DerivedStatus(now)
  {
    match FirstIndexWhere(clinics, (c: Clinic) => c.id == id)
    case None => Err(UbsNotFound)
    case Some(k) => Ok(ClinicView(clinics[k], DerivedStatus(now)))
  }

  /** One row of `listarVacinasUBS`: a vaccine and its label at the clinic, or NULL. */
  datatype VaccineStatus = VaccineStatus(id: Id, nome: string, status: Label)

  /** The response body `{ubs_id, vacinas}`. */
  datatype VaccineList = VaccineList(ubsId: Id, vacinas: seq<VaccineStatus>)

  function VaccineStatusName(v: VaccineStatus): string { v.nome }

  /**
   * `listarVacinasUBS`: the left join of every vaccine with the clinic's
   * availability rows, ordered by name. There is no clinic-existence check.
   */
  function ListarVacinasUbs(vaccines: seq<Vaccine>, availability: AvailabilityTable, id: Id): (r: VaccineList)
    ensures r.ubsId == id && |r.vacinas| == |vaccines|
    ensures SortedBy(r.vacinas, NameLe(VaccineStatusName))
    ensures forall v: Vaccine :: multiset(r.vacinas)[VaccineStatus(v.id, v.nome, StatusAt(availability, id, v.id))]
                        == multiset(vaccines)[v]
    ensures forall row :: row in r.vacinas ==>
              Vaccine(row.id, row.nome) in vaccines && row.status == StatusAt(availability, id, row.id)
  {
    var join := (v: Vaccine) => VaccineStatus(v.id, v.nome, StatusAt(availability, id, v.id));
    var rows := MapSeq(vaccines, join);
    NameLeTotalPreorder(VaccineStatusName);
    SortBySorted(rows, NameLe(VaccineStatusName));
    ImageMembers(vaccines, join, SortBy(rows, NameLe(VaccineStatusName)));
    assert forall v :: multiset(rows)[join(v)] == multiset(vaccines)[v] by {
      forall v ensures multiset(rows)[join(v)] == multiset(vaccines)[v] {
        MapSeqCount(vaccines, join, v);
      }
    }
    VaccineList(id, SortBy(rows, NameLe(VaccineStatusName)))
  }

  /** With distinct vaccine rows, each vaccine is listed exactly once. */
  lemma EveryVaccineListedOnce(vaccines: seq<Vaccine>, availability: AvailabilityTable, id: Id, v: Vaccine)
    requires Distinct(vaccines) && v in vaccines
    ensures multiset(ListarVacinasUbs(vaccines, availability, id).vacinas)
              [VaccineStatus(v.id, v.nome, StatusAt(availability, id, v.id))] == 1
  {
    DistinctCount(vaccines, v);
  }

  /**
   * For a clinic with no availability rows (an unknown clinic included) the
   * list is not a 404: it has one row per vaccine, each with status NULL.
   */
  lemma UnknownClinicListsAllNull(vaccines: seq<Vaccine>, availability: AvailabilityTable, id: Id)
    requires forall k :: k in availability ==> k.0 != id
    ensures |ListarVacinasUbs(vaccines, availability, id).vacinas| == |vaccines|
    ensures forall row :: row in ListarVacinasUbs(vaccines, availability, id).vacinas ==> row.status == None
  {
  }

  /** One row of `buscarHistoricoAtualizacoes`: an entry joined with the names it references. */
  datatype HistoryView = HistoryView(entry: HistoryEntry, nomeFuncionario: string, nomeVacina: string)

  function EmployeeName(employees: seq<Employee>, id: Id): Option<string> {
    match FirstIndexWhere(employees, (e: Employee) => e.id == id)
    case None => None
    case Some(k) => Some(employees[k].nome)
  }

  function VaccineName(vaccines: seq<Vaccine>, id: Id): Option<string> {
    match FirstIndexWhere(vaccines, (v: Vaccine) => v.id == id)
    case None => None
    case Some(k) => Some(vaccines[k].nome)
  }

  /** The inner joins of one entry with `funcionarios` and `vacinas`; `None` drops the entry. */
  function JoinEntry(h: HistoryEntry, employees: seq<Employee>, vaccines: seq<Vaccine>): Option<HistoryView> {
    match (EmployeeName(employees, h.idFuncionario), VaccineName(vaccines, h.idVacina))
    case (Some(f), Some(v)) => Some(HistoryView(h, f, v))
    case _ => None
  }

  /** The entries of clinic `id` that survive the joins, each as often as it occurs. */
  function JoinHistory(history: seq<HistoryEntry>, employees: seq<Employee>, vaccines: seq<Vaccine>, id: Id)
    : (r: seq<HistoryView>)
    ensures forall v :: v in r ==>
              v.entry in history && v.entry.idUbs == id && JoinEntry(v.entry, employees, vaccines) == Some(v)
    ensures forall h: HistoryEntry :: h.idUbs == id && JoinEntry(h, employees, vaccines).Some? ==>
              multiset(r)[JoinEntry(h, employees, vaccines).value] == multiset(history)[h]
  {
    if history == [] then []
    else
      var h0 := history[0];
      var rest := JoinHistory(history[1..], employees, vaccines, id);
      assert history == [h0] + history[1..];
      if h0.idUbs == id && JoinEntry(h0, employees, vaccines).Some? then
        [JoinEntry(h0, employees, vaccines).value] + rest
      else
        rest
  }

  /** `ORDER BY ha.data DESC, ha.hora DESC`. */
  function NewerOrSame(a: HistoryView, b: HistoryView): bool {
    a.entry.data > b.entry.data || (a.entry.data == b.entry.data && a.entry.hora >= b.entry.hora)
  }

  lemma NewerOrSameTotalPreorder()
    ensures TotalPreorder(NewerOrSame)
  {
  }

  /**
   * `buscarHistoricoAtualizacoes`: 404 when the clinic is absent; otherwise
   * exactly the joined entries of that clinic, most recent first.
   */
  function BuscarHistoricoAtualizacoes(clinics: seq<Clinic>, employees: seq<Employee>, vaccines: seq<Vaccine>,
                                       history: seq<HistoryEntry>, id: Id): (r: Result<seq<HistoryView>, Failure>)
    ensures r.Err? <==> !HasClinic(clinics, id)
    ensures r.Err? ==> r.error == UbsNotFound
    ensures r.Ok? ==> SortedBy(r.value, NewerOrSame)
    ensures r.Ok? ==> forall v :: v in r.value ==>
              v.entry in history && v.entry.idUbs == id && JoinEntry(v.entry, employees, vaccines) == Some(v)
    ensures r.Ok? ==> forall h: HistoryEntry :: h.idUbs == id && JoinEntry(h, employees, vaccines).Some? ==>
              multiset(r.value)[JoinEntry(h, employees, vaccines).value] == multiset(history)[h]
  {
    if !HasClinic(clinics, id) then Err(UbsNotFound)
    else
      var joined := JoinHistory(history, employees, vaccines, id);
      NewerOrSameTotalPreorder();
      var sorted := SortBy(joined, NewerOrSame);
      SortBySorted(joined, NewerOrSame);
      PermutationMembers(sorted, joined);
      Ok(sorted)
  }

  /**
   * When every entry references an existing employee and vaccine (which the
   * store keeps), no entry of the clinic is lost to the joins.
   */
  lemma HistoryListsEveryEntry(clinics: seq<Clinic>, employees: seq<Employee>, vaccines: seq<Vaccine>,
                               history: seq<HistoryEntry>, id: Id, h: HistoryEntry)
    requires HasClinic(clinics, id)
    requires HasEmployee(employees, h.idFuncionario) && HasVaccine(vaccines, h.idVacina)
    requires h in history && h.idUbs == id
    ensures JoinEntry(h, employees, vaccines).Some?
    ensures JoinEntry(h, employees, vaccines).value
            in BuscarHistoricoAtualizacoes(clinics, employees, vaccines, history, id).value
  {
  }
}
