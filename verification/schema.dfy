/** The rows of the four tables the backend keeps (patients, appointments, physician_reports, users).
    A nullable column is an `Option`; ids are the keys of the maps that hold the rows. */
module Schema {
  import opened Wrappers

  datatype Patient = Patient(
    firstName: string,
    lastName: string,
    phone: Option<string>,
    dob: Option<string>,
    notes: Option<string>)

  datatype Appointment = Appointment(
    patientId: nat,
    date: string,
    startTime: string,
    endTime: string,
    appointmentType: string,
    notes: Option<string>,
    status: string,
    serviceType: string)

  /** The ten free-text sections of a physician report, each nullable. */
  datatype ReportSections = ReportSections(
    dateOfBirth: Option<string>,
    reasonForVisit: Option<string>,
    chiefComplaint: Option<string>,
    historyOfPresentIllness: Option<string>,
    physicalExamination: Option<string>,
    diagnosis: Option<string>,
    treatmentPlan: Option<string>,
    medicationsPrescribed: Option<string>,
    followUpInstructions: Option<string>,
    additionalNotes: Option<string>)

  datatype Report = Report(
    appointmentId: nat,
    patientName: Option<string>,
    sections: ReportSections,
    createdBy: Option<nat>,
    createdAt: int)

  datatype User = User(
    username: string,
    passwordHash: string,
    role: string,
    name: string,
    isActive: bool)

  /** The foreign key of `appointments.patient_id`: every appointment names a stored patient. */
  predicate NoDanglingPatients(patients: map<nat, Patient>, appointments: map<nat, Appointment>) {
    forall j | j in appointments :: appointments[j].patientId in patients
  }

  /** JavaScript truthiness of an optional string: present and not empty. */
  predicate Present(s: Option<string>) { s.Some? && s.value != "" }

  /** JavaScript truthiness of an optional id: present and not 0. */
  predicate PresentId(n: Option<nat>) { n.Some? && n.value != 0 }

  /** `x || null` for an optional string. */
  function OrNull(s: Option<string>): (r: Option<string>)
    ensures r.Some? <==> Present(s)
    ensures r.Some? ==> r == s
  {
    if Present(s) then s else None
  }
}
