/**
 * The decisions of `atualizarStatusVacina`
 * (src/controllers/ubsController.js:84-149) as pure functions of the tables:
 * the order of its existence checks, the previous status it records, and the
 * upsert of the availability table. `Database.Store.AtualizarStatusVacina`
 * performs the steps and is proved against these.
 */
module Availability {
  import opened Wrappers
  import opened Tables

  /** The label recorded when there was no (truthy) previous status. */
  const Indisponivel := "Indisponível"

  /**
   * The existence checks in source order: clinic, then vaccine, then an
   * employee with exactly this cpf. The first missing entity decides the 404;
   * when all exist the result is the id of the first employee with that cpf.
   */
  function UpdateCheck(clinics: seq<Clinic>, vaccines: seq<Vaccine>, employees: seq<Employee>,
                       id: Id, vacinaId: Id, cpf: string): (r: Result<Id, Failure>)
    ensures !HasClinic(clinics, id) ==> r == Err(UbsNotFound)
    ensures HasClinic(clinics, id) && !HasVaccine(vaccines, vacinaId) ==> r == Err(VaccineNotFound)
    ensures (&& HasClinic(clinics, id) && HasVaccine(vaccines, vacinaId)
             && forall i :: 0 <= i < |employees| ==> employees[i].cpf != cpf)
            ==> r == Err(EmployeeNotFound)
    ensures (&& HasClinic(clinics, id) && HasVaccine(vaccines, vacinaId)
             && exists i :: 0 <= i < |employees| && employees[i].cpf == cpf)
            ==> r.Ok?
    ensures r.Ok? ==> HasClinic(clinics, id) && HasVaccine(vaccines, vacinaId)
    ensures r.Ok? ==> exists k :: 0 <= k < |employees| && employees[k].cpf == cpf && employees[k].id == r.value
                               && forall j :: 0 <= j < k ==> employees[j].cpf != cpf
    ensures r.Err? ==> r.error.code == 404
  {
    if !HasClinic(clinics, id) then Err(UbsNotFound)
    else if !HasVaccine(vaccines, vacinaId) then Err(VaccineNotFound)
    else match EmployeeByCpf(employees, cpf)
      case None => Err(EmployeeNotFound)
      case Some(k) => Ok(employees[k].id)
  }

  /**
   * `statusAnterior || 'Indisponível'`: the previous status recorded in the
   * history. A missing row, a NULL label and an empty label all become
   * 'Indisponível'; any other label is kept.
   */
  function PreviousForHistory(prior: Label): (r: string)
    ensures r != ""
    ensures !Falsy(prior) ==> r == prior.value
    ensures Falsy(prior) ==> r == Indisponivel
  {
    if Falsy(prior) then Indisponivel else prior.value
  }

  /** `INSERT ... ON CONFLICT (id_ubs, id_vacina) DO UPDATE`: insert or overwrite one pair. */
  function Upsert(availability: AvailabilityTable, ubs: Id, vacina: Id, status: Label): (m: AvailabilityTable)
    ensures m.Keys == availability.Keys + {(ubs, vacina)}
    ensures StatusAt(m, ubs, vacina) == status
    ensures forall u, v :: (u, v) != (ubs, vacina) ==> StatusAt(m, u, v) == StatusAt(availability, u, v)
  {
    availability[(ubs, vacina) := status]
  }

  /** A pair that was never set is recorded as previously 'Indisponível'. */
  lemma FreshPairRecordsIndisponivel(availability: AvailabilityTable, ubs: Id, vacina: Id)
    requires (ubs, vacina) !in availability
    ensures PreviousForHistory(StatusAt(availability, ubs, vacina)) == Indisponivel
  {
  }

  /** The second of two updates of a pair records the first one's (truthy) status as previous. */
  lemma ConsecutiveUpdatesChain(availability: AvailabilityTable, ubs: Id, vacina: Id, first: Label, second: Label)
    requires !Falsy(first)
    ensures PreviousForHistory(StatusAt(Upsert(availability, ubs, vacina, first), ubs, vacina)) == first.value
    ensures Upsert(Upsert(availability, ubs, vacina, first), ubs, vacina, second)
            == Upsert(availability, ubs, vacina, second)
  {
  }
}
