/** The pet record: how its type is shown, its age as text, and who may edit it. */
module PetModels {
  import opened Wrappers
  import opened Text
  import opened Dates

  /** A user of the site. */
  type UserId = int

  /** The fields of a pet the core reads. `owners` lists the owners in the order the owner
      query returns them. */
  datatype Pet = Pet(
    name: string,
    petType: string,
    customPetType: Option<string>,
    birthday: Option<Date>,
    owners: seq<UserId>)

  /** The pet type choices: the stored key and the label shown for it. */
  const PetTypeChoices: seq<(string, string)> := [
    ("dog", "🐶 Собака"),
    ("cat", "🐱 Кошка"),
    ("bird", "🐦 Птица"),
    ("rodent", "🐹 Грызун"),
    ("rabbit", "🐰 Кролик"),
    ("reptile", "🐍 Рептилия"),
    ("fish", "🐠 Рыбка"),
    ("other", "❓ Другое (указать)")
  ]

  /** The prefix `display_pet_type` removes from a label. */
  const QuestionPrefix: string := "❓ "

  /** `get_pet_type_display()`: the label of a known key, the stored value itself otherwise. */
  function TypeLabel(petType: string, choices: seq<(string, string)>): (shown: string)
    ensures choices == [] ==> shown == petType
    ensures choices != [] && choices[0].0 == petType ==> shown == choices[0].1
    decreases |choices|
  {
    if choices == [] then petType
    else if choices[0].0 == petType then choices[0].1
    else TypeLabel(petType, choices[1..])
  }

  /** A `CharField` value is truthy when it is neither null nor empty. */
  predicate Filled(v: Option<string>) {
    v.Some? && v.value != []
  }

  /** `display_pet_type`: the custom type of an "other" pet that has one, else the label
      without its question-mark prefix. */
  function DisplayPetType(p: Pet): string {
    if p.petType == "other" && Filled(p.customPetType) then p.customPetType.value
    else ReplaceAll(TypeLabel(p.petType, PetTypeChoices), QuestionPrefix, "")
  }

  /** The label of "other". */
  lemma OtherLabel()
    ensures TypeLabel("other", PetTypeChoices) == "❓ Другое (указать)"
  {
    var c := PetTypeChoices;
    assert c[1..][1..][1..][1..][1..][1..][1..] == [("other", "❓ Другое (указать)")];
  }

  /** Removing the question mark from the label of "other". */
  lemma OtherLabelShown()
    ensures ReplaceAll("❓ Другое (указать)", QuestionPrefix, "") == "Другое (указать)"
  {
    assert "❓ Другое (указать)" == QuestionPrefix + "Другое (указать)";
    ReplaceLeading(QuestionPrefix, "Другое (указать)", "");
    ReplaceAbsent("Другое (указать)", QuestionPrefix, "");
  }

  /** An "other" pet with a custom type shows that type; without one it shows the label of
      "other" without the question mark. */
  lemma DisplayOther(p: Pet)
    requires p.petType == "other"
    ensures Filled(p.customPetType) ==> DisplayPetType(p) == p.customPetType.value
    ensures !Filled(p.customPetType) ==> DisplayPetType(p) == "Другое (указать)"
  {
    if !Filled(p.customPetType) {
      OtherLabel();
      OtherLabelShown();
    }
  }

  /** A key listed at position `i`, and not before it, gets the label listed with it. */
  lemma {:induction false} TypeLabelAt(petType: string, choices: seq<(string, string)>, i: nat)
    requires i < |choices| && choices[i].0 == petType
    requires forall j | 0 <= j < i :: choices[j].0 != petType
    ensures TypeLabel(petType, choices) == choices[i].1
    decreases i
  {
    if i > 0 {
      assert choices[0].0 != petType;
      TypeLabelAt(petType, choices[1..], i - 1);
    }
  }

  /** The keys of the choices are distinct. */
  lemma ChoiceKeysDistinct()
    ensures forall i, j | 0 <= j < i < |PetTypeChoices| :: PetTypeChoices[j].0 != PetTypeChoices[i].0
  {
    var c := PetTypeChoices;
    assert forall i | 0 <= i < |c| :: |c[i].0| >= 3;
    assert c[0].0[0] == 'd' && c[1].0[0] == 'c' && c[2].0[0] == 'b' && c[3].0[0] == 'r';
    assert c[4].0[0] == 'r' && c[5].0[0] == 'r' && c[6].0[0] == 'f' && c[7].0[0] == 'o';
    assert c[3].0[2] == 'd' && c[4].0[2] == 'b' && c[5].0[2] == 'p';
  }

  /** Only the label of "other" holds the question mark. */
  lemma LabelsWithoutQuestionMark(i: nat)
    requires i < |PetTypeChoices| - 1
    ensures QuestionPrefix[0] !in PetTypeChoices[i].1
  {
    var l := PetTypeChoices[i].1;
    assert l[0] != QuestionPrefix[0];
    assert forall k | 1 <= k < |l| :: l[k] != QuestionPrefix[0];
  }

  /** Every other pet shows its label unchanged: no other label has the question mark, and
      the custom type is ignored. */
  lemma DisplayKnownType(p: Pet, i: nat)
    requires i < |PetTypeChoices| - 1 && p.petType == PetTypeChoices[i].0
    ensures DisplayPetType(p) == PetTypeChoices[i].1
  {
    ChoiceKeysDistinct();
    TypeLabelAt(p.petType, PetTypeChoices, i);
    LabelsWithoutQuestionMark(i);
    ReplaceAbsent(PetTypeChoices[i].1, QuestionPrefix, "");
  }

  // Age

  /** A pet's age in whole years and the months beyond them. */
  datatype AgeParts = AgeParts(years: int, months: int)

  /** The number of whole months from `birthday` to `today`: a month counts once its day of
      the month has come. */
  function CompletedMonths(birthday: Date, today: Date): int {
    (today.year - birthday.year) * 12 + (today.month - birthday.month) - (if today.day < birthday.day then 1 else 0)
  }

  /** The arithmetic of `age`: year, month and day differences, a negative day difference
      borrowing a month and a negative month difference borrowing a year. */
  function Age(birthday: Date, today: Date): (a: AgeParts)
    requires IsValid(birthday) && IsValid(today)
    ensures 0 <= a.months <= 11
    ensures a.years * 12 + a.months == CompletedMonths(birthday, today)
  {
    var years := today.year - birthday.year;
    var months := today.month - birthday.month;
    var days := today.day - birthday.day;
    var months := if days < 0 then months - 1 else months;
    if months < 0 then AgeParts(years - 1, months + 12) else AgeParts(years, months)
  }

  /** A pet born on or before today has a non-negative age. */
  lemma AgeNotNegative(birthday: Date, today: Date)
    requires IsValid(birthday) && IsValid(today) && !Before(today, birthday)
    ensures Age(birthday, today).years >= 0
  {
  }

  /** The years of the age as `age` prints them. */
  function YearsText(n: int): string {
    IntToString(n) + " г."
  }

  /** The months of the age as `age` prints them. */
  function MonthsText(n: int): string {
    IntToString(n) + " мес."
  }

  /** A printed number is made of digits and at most a minus sign, so no letter of the units
      occurs in it. */
  lemma NumberHasNoLetter(n: int, c: char)
    requires c != '-' && !IsDigit(c)
    ensures c !in IntToString(n)
  {
  }

  /** A string without the first character of `sub` does not contain `sub`. */
  lemma AbsentLead(s: string, sub: string)
    requires sub != [] && sub[0] !in s
    ensures !Contains(s, sub)
  {
  }

  /** The years part holds "г." and, having no "м", never "мес.". */
  lemma YearsTextUnits(n: int)
    ensures OccursAt(YearsText(n), "г.", |IntToString(n)| + 1)
    ensures !Contains(YearsText(n), "мес.")
  {
    NumberHasNoLetter(n, 'м');
    AbsentLead(YearsText(n), "мес.");
  }

  /** The months part holds "мес." and, having no "г", never "г.". */
  lemma MonthsTextUnits(n: int)
    ensures OccursAt(MonthsText(n), "мес.", |IntToString(n)| + 1)
    ensures !Contains(MonthsText(n), "г.")
  {
    NumberHasNoLetter(n, 'г');
    AbsentLead(MonthsText(n), "г.");
  }

  /** How `age` prints the parts: years are shown exactly when the pet is at least a year old,
      months exactly when it is under a year or the months are not a whole number of years. */
  function AgeText(a: AgeParts): (s: string)
    ensures Contains(s, "г.") <==> a.years != 0
    ensures Contains(s, "мес.") <==> (a.years == 0 || a.months != 0)
  {
    YearsTextUnits(a.years);
    MonthsTextUnits(a.months);
    if a.years == 0 then MonthsText(a.months)
    else if a.months == 0 then YearsText(a.years)
    else
      BothUnits(a.years, a.months);
      YearsText(a.years) + " " + MonthsText(a.months)
  }

  /** Years and months printed together hold both units. */
  lemma BothUnits(years: int, months: int)
    ensures var s := YearsText(years) + " " + MonthsText(months);
      Contains(s, "г.") && Contains(s, "мес.")
  {
    var y := YearsText(years);
    var m := MonthsText(months);
    var k := |IntToString(months)| + 1;
    YearsTextUnits(years);
    MonthsTextUnits(months);
    assert (y + " " + m)[..|y|] == y;
    assert (y + " " + m)[|y| + 1 + k..|y| + 1 + k + 4] == m[k..k + 4];
    assert OccursAt(y + " " + m, "г.", |IntToString(years)| + 1);
    assert OccursAt(y + " " + m, "мес.", |y| + 1 + k);
  }

  /** `Pet.age`: None without a birthday, else the printed age on `today`. */
  function AgeOf(p: Pet, today: Date): (r: Option<string>)
    requires IsValid(today) && (p.birthday.Some? ==> IsValid(p.birthday.value))
    ensures r.None? <==> p.birthday.None?
  {
    if p.birthday.None? then None else Some(AgeText(Age(p.birthday.value, today)))
  }

  /** A pet at least a year old has "г." in its age. */
  lemma YearOldAgeMentionsYears(p: Pet, today: Date)
    requires IsValid(today) && p.birthday.Some? && IsValid(p.birthday.value)
    requires CompletedMonths(p.birthday.value, today) >= 12
    ensures Contains(AgeOf(p, today).value, "г.")
  {
    assert Age(p.birthday.value, today).years >= 1;
  }

  /** A pet born on 2020-01-01 has "г." in its age from 2021 on. */
  lemma BornIn2020(p: Pet, today: Date)
    requires p.birthday == Some(Date(2020, 1, 1)) && IsValid(today) && today.year >= 2021
    ensures Contains(AgeOf(p, today).value, "г.")
  {
    YearOldAgeMentionsYears(p, today);
  }

  // Ownership

  /** `is_owner`: the user is one of the pet's owners. */
  predicate IsOwner(p: Pet, user: UserId) {
    user in p.owners
  }

  /** `can_edit`: whoever owns the pet may edit it. */
  predicate CanEdit(p: Pet, user: UserId) {
    IsOwner(p, user)
  }
}
