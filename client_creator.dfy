/** The poll creation form (src/components/PollCreator.tsx): the list of
    variant texts the organiser edits, the two checks of its submit handler
    and the payload it hands on. */
module ClientCreator {
  import opened Base
  import opened ApiTypes

  /** A variant counts only when something other than white space is left. */
  predicate NotBlank(v: string) {
    Trim(v) != ""
  }

  // ---------------------------------------------------------------------
  // Editing the variants

  /** The label of the button-added variant, `Вариант {n + 1}`. */
  function NewLabel(n: nat): string {
    "Вариант " + Dec(n + 1)
  }

  /** The add button: a numbered variant at the end. */
  function AddVariant(vs: seq<string>): (r: seq<string>)
    ensures |r| == |vs| + 1 && r[..|vs|] == vs && r[|vs|] == NewLabel(|vs|)
  {
    vs + [NewLabel(|vs|)]
  }

  /** `arr.map((x, i) => (i === idx ? text : x))`. */
  function EditVariant(vs: seq<string>, idx: int, text: string): (r: seq<string>)
    ensures |r| == |vs|
    ensures forall i :: 0 <= i < |vs| ==> r[i] == (if i == idx then text else vs[i])
  {
    seq(|vs|, i requires 0 <= i < |vs| => if i == idx then text else vs[i])
  }

  /** `arr.filter((_, i) => i !== idx)`. */
  function RemoveVariant(vs: seq<string>, idx: int): (r: seq<string>)
    ensures 0 <= idx < |vs| ==> |r| == |vs| - 1
    ensures !(0 <= idx < |vs|) ==> r == vs
    ensures 0 <= idx < |vs| ==> forall i :: 0 <= i < |r| ==> r[i] == (if i < idx then vs[i] else vs[i + 1])
  {
    if 0 <= idx < |vs| then vs[..idx] + vs[idx + 1..] else vs
  }

  /** Removing the variant just added gives the list back. */
  lemma RemoveAfterAdd(vs: seq<string>)
    ensures RemoveVariant(AddVariant(vs), |vs|) == vs
  {
    assert AddVariant(vs)[..|vs|] == vs;
  }

  /** Writing a variant's old text back undoes an edit. */
  lemma EditBack(vs: seq<string>, idx: int, text: string)
    requires 0 <= idx < |vs|
    ensures EditVariant(EditVariant(vs, idx, text), idx, vs[idx]) == vs
  {
    var e := EditVariant(EditVariant(vs, idx, text), idx, vs[idx]);
    assert forall i :: 0 <= i < |vs| ==> e[i] == vs[i];
  }

  /** An edit only touches the one variant: every other keeps its text. */
  lemma EditKeepsOthers(vs: seq<string>, idx: int, text: string, j: int)
    requires 0 <= j < |vs| && j != idx
    ensures EditVariant(vs, idx, text)[j] == vs[j]
    ensures 0 <= idx < |vs| ==> EditVariant(vs, idx, text)[idx] == text
  {
  }

  // ---------------------------------------------------------------------
  // Submitting

  /** The form's state. The deadline is the instant of the date-time input,
      None when it is empty. */
  datatype Form = Form(
    title: string,
    description: string,
    deadline: Option<int>,
    isMulti: bool,
    maxSelections: int,
    variants: seq<string>,
    isAnonymous: bool)

  /** One hour, in milliseconds (`36e5`). */
  const HourMs: int := 3_600_000

  /** The form as it opens at the instant `openedAt`: two numbered variants,
      a single-choice anonymous poll, a deadline one hour ahead. */
  function InitialForm(openedAt: int): (f: Form)
    ensures f.variants == AddVariant(AddVariant([]))
    ensures !f.isMulti && f.isAnonymous && f.maxSelections == 2
  {
    Form("", "", Some(openedAt + HourMs), false, 2, [NewLabel(0), NewLabel(1)], true)
  }

  /** What the form passes to `onCreatePoll`. */
  datatype Payload = Payload(
    title: string,
    description: string,
    deadline: Option<int>,
    kind: PollKind,
    variants: seq<string>,
    maxSelections: int,
    isAnonymous: bool)

  datatype SubmitOutcome =
    | MissingFields      // 'Заполните заголовок и добавьте минимум 2 варианта'
    | DeadlineInPast     // 'Дедлайн не может быть в прошлом'
    | Submitted(payload: Payload)

  /** The payload built from the form: trimmed title and description, blank
      variants dropped and every other entry kept, repeats included, in
      order and untrimmed; the cap forced to 1 for a single-choice poll. */
  function PayloadOf(f: Form): (p: Payload)
    ensures p.title == Trim(f.title) && p.description == Trim(f.description)
    ensures p.deadline == f.deadline && p.isAnonymous == f.isAnonymous
    ensures p.kind == (if f.isMulti then Multi else Single)
    ensures p.maxSelections == (if f.isMulti then f.maxSelections else 1)
    ensures IsSubseq(p.variants, f.variants)
    ensures forall v :: v in p.variants <==> v in f.variants && NotBlank(v)
    ensures forall v :: multiset(p.variants)[v] == (if NotBlank(v) then multiset(f.variants)[v] else 0)
  {
    FilterIsSubseq(f.variants, NotBlank);
    FilterMultiplicity(f.variants, NotBlank);
    Payload(Trim(f.title), Trim(f.description), f.deadline,
            if f.isMulti then Multi else Single,
            Filter(f.variants, NotBlank),
            if f.isMulti then f.maxSelections else 1,
            f.isAnonymous)
  }

  /** `handleSubmit` as written: the two-variant minimum is checked on the
      list before the blank variants are dropped. */
  function SubmitAsWritten(f: Form, now: int): SubmitOutcome {
    if Trim(f.title) == "" || |f.variants| < 2 then MissingFields
    else if f.deadline.Some? && f.deadline.value < now then DeadlineInPast
    else Submitted(PayloadOf(f))
  }

  /** A title and one real variant beside a blank one pass the check as
      written, and the poll handed on has a single variant. */
  lemma BlankVariantPasses(f: Form, now: int)
    requires NotBlank(f.title) && f.deadline.None?
    requires |f.variants| == 2 && NotBlank(f.variants[0]) && !NotBlank(f.variants[1])
    ensures SubmitAsWritten(f, now).Submitted?
    ensures |SubmitAsWritten(f, now).payload.variants| == 1
  {
    var vs := f.variants;
    assert vs == [vs[0]] + [vs[1]];
    FilterAppend([vs[0]], [vs[1]], NotBlank);
  }

  lemma NotBlankFromFirst(v: string)
    requires v != [] && !IsSpace(v[0])
    ensures NotBlank(v)
  {
    assert TrimStart(v) == v;
    assert v[0] in v;
  }

  lemma SpaceIsBlank()
    ensures !NotBlank(" ")
  {
    assert TrimStart(" ") == TrimStart(" "[1..]);
    assert " "[1..] == [];
  }

  /** The same form, shown concretely: a question with the variants "Да"
      and a lone space. */
  lemma BlankVariantExample(now: int)
    ensures var f := Form("Q", "", None, false, 2, ["Да", " "], true);
      SubmitAsWritten(f, now).Submitted? && |SubmitAsWritten(f, now).payload.variants| == 1
  {
    var f := Form("Q", "", None, false, 2, ["Да", " "], true);
    NotBlankFromFirst("Q");
    NotBlankFromFirst("Да");
    SpaceIsBlank();
    BlankVariantPasses(f, now);
  }

  /** `handleSubmit` with the minimum counted on the variants that are sent. */
  function Submit(f: Form, now: int): SubmitOutcome {
    if Trim(f.title) == "" || |Filter(f.variants, NotBlank)| < 2 then MissingFields
    else if f.deadline.Some? && f.deadline.value < now then DeadlineInPast
    else Submitted(PayloadOf(f))
  }

  /** The form is submitted exactly when the title is not blank, at least two
      variants are not blank and the deadline, if any, is not in the past;
      the missing fields are reported before the deadline; and a submitted
      poll has a non-blank title and at least two variants, none blank. */
  lemma SubmitSpec(f: Form, now: int)
    ensures Submit(f, now).Submitted? <==>
      NotBlank(f.title) && |Filter(f.variants, NotBlank)| >= 2 && !(f.deadline.Some? && f.deadline.value < now)
    ensures Submit(f, now) == DeadlineInPast <==>
      NotBlank(f.title) && |Filter(f.variants, NotBlank)| >= 2 && f.deadline.Some? && f.deadline.value < now
    ensures Submit(f, now).Submitted? ==> (
      var p := Submit(f, now).payload;
      p == PayloadOf(f) && p.title != "" && |p.variants| >= 2 &&
      forall i :: 0 <= i < |p.variants| ==> NotBlank(p.variants[i]))
  {
  }

  /** The corrected check refuses no more and no fewer forms than the
      original once no variant is blank. */
  lemma SubmitsAgreeWithoutBlanks(f: Form, now: int)
    requires forall i :: 0 <= i < |f.variants| ==> NotBlank(f.variants[i])
    ensures Submit(f, now) == SubmitAsWritten(f, now)
  {
    FilterAllTrue(f.variants, NotBlank);
  }

  /** The form as a component with its state hooks. */
  class CreatorForm {
    var title: string
    var description: string
    var deadline: Option<int>
    var isMulti: bool
    var maxSelections: int
    var variants: seq<string>
    var isAnonymous: bool

    function Snapshot(): Form
      reads this
    {
      Form(title, description, deadline, isMulti, maxSelections, variants, isAnonymous)
    }

    constructor (openedAt: int)
      ensures Snapshot() == InitialForm(openedAt)
    {
      title, description, deadline := "", "", Some(openedAt + HourMs);
      isMulti, maxSelections, isAnonymous := false, 2, true;
      variants := [NewLabel(0), NewLabel(1)];
    }

    method Add()
      modifies this
      ensures Snapshot() == old(Snapshot()).(variants := AddVariant(old(variants)))
    {
      variants := AddVariant(variants);
    }

    method Edit(idx: int, text: string)
      modifies this
      ensures Snapshot() == old(Snapshot()).(variants := EditVariant(old(variants), idx, text))
    {
      variants := EditVariant(variants, idx, text);
    }

    method Remove(idx: int)
      modifies this
      ensures Snapshot() == old(Snapshot()).(variants := RemoveVariant(old(variants), idx))
    {
      variants := RemoveVariant(variants, idx);
    }

    /** The radio buttons for the poll kind. */
    method SetMulti(multi: bool)
      modifies this
      ensures Snapshot() == old(Snapshot()).(isMulti := multi)
    {
      isMulti := multi;
    }

    /** The cap input: `parseInt(value || "1", 10)`, given as the parsed
        number. */
    method SetMaxSelections(n: int)
      modifies this
      ensures Snapshot() == old(Snapshot()).(maxSelections := n)
    {
      maxSelections := n;
    }

    /** The submit handler; it changes no state of the form. */
    method SubmitPressed(now: int) returns (r: SubmitOutcome)
      ensures r == Submit(Snapshot(), now)
      ensures r.Submitted? ==> |r.payload.variants| >= 2
    {
      var kept := Filter(variants, NotBlank);
      if Trim(title) == "" || |kept| < 2 {
        return MissingFields;
      }
      if deadline.Some? && deadline.value < now {
        return DeadlineInPast;
      }
      r := Submitted(PayloadOf(Snapshot()));
    }
  }
}
