/** The appointment types offered for each service: five for the doctor, three for the
    esthetician, each with the translation key of its label. */
module AppointmentTypes {
  import opened Wrappers
  import opened Translations

  datatype AppointmentType = AppointmentType(value: string, labelKey: string)

  /** An appointment type with its label in the chosen language. */
  datatype LabeledType = LabeledType(value: string, labelKey: string, labelText: string)

  /** The prefix of every label key. */
  const KeyPrefix := "appointmentTypes."

  /** A table entry: its value and the label key `appointmentTypes.<value>`. */
  function Listed(value: string): AppointmentType {
    AppointmentType(value, KeyPrefix + value)
  }

  const DoctorTypes: seq<AppointmentType> := [
    Listed("consultation"),
    Listed("follow-up"),
    Listed("checkup"),
    Listed("procedure"),
    Listed("emergency")]

  const EstheticianTypes: seq<AppointmentType> := [
    Listed("facial"),
    Listed("laser"),
    Listed("wax")]

  /** `appointmentTypes[serviceType] || appointmentTypes.doctor` */
  function TypesFor(serviceType: string): (r: seq<AppointmentType>)
    ensures serviceType == "esthetician" ==> r == EstheticianTypes
    ensures serviceType != "esthetician" ==> r == DoctorTypes
  {
    if serviceType == "doctor" then DoctorTypes
    else if serviceType == "esthetician" then EstheticianTypes
    else DoctorTypes
  }

  /** getAppointmentTypes: the service's types in order, each with its translated label. */
  function GetAppointmentTypes(translations: map<string, Entry>, serviceType: string, language: string): (r: seq<LabeledType>)
    ensures |r| == |TypesFor(serviceType)|
    ensures forall k | 0 <= k < |r| ::
      && r[k].value == TypesFor(serviceType)[k].value
      && r[k].labelKey == TypesFor(serviceType)[k].labelKey
      && r[k].labelText == Translate(translations, TypesFor(serviceType)[k].labelKey, language)
  {
    var types := TypesFor(serviceType);
    seq(|types|, k requires 0 <= k < |types| =>
      LabeledType(types[k].value, types[k].labelKey, Translate(translations, types[k].labelKey, language)))
  }

  /** getAppointmentTypeValues: the service's values in order. */
  function GetAppointmentTypeValues(serviceType: string): (r: seq<string>)
    ensures |r| == |TypesFor(serviceType)|
    ensures forall k | 0 <= k < |r| :: r[k] == TypesFor(serviceType)[k].value
  {
    var types := TypesFor(serviceType);
    seq(|types|, k requires 0 <= k < |types| => types[k].value)
  }

  /** The position of the first type with the value, as `find` looks for it. */
  function FindType(types: seq<AppointmentType>, value: string): (r: Option<nat>)
    ensures r.Some? ==> r.value < |types| && types[r.value].value == value
    ensures r.Some? ==> forall k | 0 <= k < r.value :: types[k].value != value
    ensures r.None? ==> forall k | 0 <= k < |types| :: types[k].value != value
  {
    if types == [] then None
    else if types[0].value == value then Some(0)
    else match FindType(types[1..], value)
      case None => None
      case Some(k) => Some(k + 1)
  }

  /** getAppointmentTypeLabel: the translated label of a listed value; for any other value the
      translation of `appointmentTypes.<value>`, or the value itself when that translation is
      empty. */
  function GetAppointmentTypeLabel(translations: map<string, Entry>, value: string, serviceType: string, language: string): string {
    var types := TypesFor(serviceType);
    match FindType(types, value)
    case Some(k) => Translate(translations, types[k].labelKey, language)
    case None =>
      var direct := Translate(translations, KeyPrefix + value, language);
      if direct == "" then value else direct
  }

  /** Every listed label key is `appointmentTypes.` followed by its value. */
  lemma LabelKeysFollowValues(serviceType: string)
    ensures forall t | t in TypesFor(serviceType) :: t.labelKey == KeyPrefix + t.value
  {
  }

  /** The doctor has five types and the esthetician three, every other service the doctor's; the
      values of a service are distinct. */
  lemma ValuesPerService(serviceType: string)
    ensures |GetAppointmentTypeValues("doctor")| == 5 && |GetAppointmentTypeValues("esthetician")| == 3
    ensures GetAppointmentTypeValues("doctor")
         == ["consultation", "follow-up", "checkup", "procedure", "emergency"]
    ensures GetAppointmentTypeValues("esthetician") == ["facial", "laser", "wax"]
    ensures var v := GetAppointmentTypeValues(serviceType);
      forall i, j | 0 <= i < j < |v| :: v[i] != v[j]
  {
    var v := GetAppointmentTypeValues(serviceType);
    assert GetAppointmentTypeValues("doctor")
        == ["consultation", "follow-up", "checkup", "procedure", "emergency"];
    assert GetAppointmentTypeValues("esthetician") == ["facial", "laser", "wax"];
  }

  /** An unknown service gets the doctor's types, values and labels. */
  lemma UnknownServiceIsDoctor(translations: map<string, Entry>, serviceType: string, value: string, language: string)
    requires serviceType != "doctor" && serviceType != "esthetician"
    ensures GetAppointmentTypes(translations, serviceType, language) == GetAppointmentTypes(translations, "doctor", language)
    ensures GetAppointmentTypeValues(serviceType) == GetAppointmentTypeValues("doctor")
    ensures GetAppointmentTypeLabel(translations, value, serviceType, language)
         == GetAppointmentTypeLabel(translations, value, "doctor", language)
  {
  }

  /** The list with labels and the list of values agree entry by entry. */
  lemma TypesMatchValues(translations: map<string, Entry>, serviceType: string, language: string)
    ensures var types := GetAppointmentTypes(translations, serviceType, language);
      var values := GetAppointmentTypeValues(serviceType);
      |types| == |values| && forall k | 0 <= k < |types| :: types[k].value == values[k]
  {
  }

  /** Every label asked for by value is the translation of `appointmentTypes.<value>`, except that an
      unlisted value whose translation is empty is its own label. */
  lemma LabelIsTranslationOfValue(translations: map<string, Entry>, value: string, serviceType: string, language: string)
    ensures var direct := Translate(translations, KeyPrefix + value, language);
      var shown := GetAppointmentTypeLabel(translations, value, serviceType, language);
      && (value in GetAppointmentTypeValues(serviceType) ==> shown == direct)
      && (value !in GetAppointmentTypeValues(serviceType) ==> shown == (if direct == "" then value else direct))
  {
    var types := TypesFor(serviceType);
    LabelKeysFollowValues(serviceType);
    match FindType(types, value)
    case Some(k) =>
      assert types[k] in types;
      assert GetAppointmentTypeValues(serviceType)[k] == value;
    case None =>
      assert value !in GetAppointmentTypeValues(serviceType);
  }

  /** A label of the type list is the one asked for by value. */
  lemma ListedLabelsAgree(translations: map<string, Entry>, serviceType: string, language: string, k: nat)
    requires k < |GetAppointmentTypes(translations, serviceType, language)|
    ensures var t := GetAppointmentTypes(translations, serviceType, language)[k];
      t.labelText == GetAppointmentTypeLabel(translations, t.value, serviceType, language)
  {
    LabelKeysFollowValues(serviceType);
    var t := GetAppointmentTypes(translations, serviceType, language)[k];
    assert TypesFor(serviceType)[k] in TypesFor(serviceType);
    LabelIsTranslationOfValue(translations, t.value, serviceType, language);
  }

  /** An unlisted value without a translation is labelled with the key `appointmentTypes.<value>`. */
  lemma UntranslatedValueShowsKey(translations: map<string, Entry>, value: string, serviceType: string, language: string)
    requires language !in translations
    requires value !in GetAppointmentTypeValues(serviceType)
    ensures GetAppointmentTypeLabel(translations, value, serviceType, language) == KeyPrefix + value
  {
    UnknownLanguageGivesKey(translations, KeyPrefix + value, language);
    LabelIsTranslationOfValue(translations, value, serviceType, language);
  }
}
