/** The three-step form of script.js: which step is current, the `active`
    and `hide` classes of each step, navigation by the next and previous
    buttons, and the record the form submits together with the FormData
    entries it is posted as. A step's class list is reduced to its two
    flags, and an input's `reportValidity()` to a given boolean. */
module StepForm {
  import opened Results

  // ---------------------------------------------------------------------
  // Searching

  /** `Array.prototype.findIndex`: the first index whose element satisfies
      `p`, or -1. */
  function FindIndex<T>(s: seq<T>, p: T -> bool): (r: int)
    ensures -1 <= r < |s|
    ensures r >= 0 ==> p(s[r]) && forall j :: 0 <= j < r ==> !p(s[j])
    ensures r == -1 <==> forall j :: 0 <= j < |s| ==> !p(s[j])
  {
    if |s| == 0 then -1
    else if p(s[0]) then 0
    else
      var r := FindIndex(s[1..], p);
      if r < 0 then -1 else r + 1
  }

  /** The index of the first step whose class list holds `active`, or -1. */
  function FirstActive(flags: seq<bool>): int
  {
    FindIndex(flags, (b: bool) => b)
  }

  /** Only step `k` is active; no step is when `k` is out of range. */
  ghost predicate OnlyActive(flags: seq<bool>, k: int)
  {
    forall i :: 0 <= i < |flags| ==> flags[i] == (i == k)
  }

  /** The number of active steps. */
  function ActiveCount(flags: seq<bool>): nat
  {
    if |flags| == 0 then 0 else ActiveCount(flags[..|flags| - 1]) + (if flags[|flags| - 1] then 1 else 0)
  }

  /** When only step `k` is active, exactly one step is active if `k` is a
      step and none is otherwise. */
  lemma {:induction false} OnlyActiveCount(flags: seq<bool>, k: int)
    requires OnlyActive(flags, k)
    ensures ActiveCount(flags) == (if 0 <= k < |flags| then 1 else 0)
    decreases |flags|
  {
    if |flags| > 0 {
      var init := flags[..|flags| - 1];
      assert OnlyActive(init, k) by {
        forall i | 0 <= i < |init|
          ensures init[i] == (i == k)
        {
          assert init[i] == flags[i];
        }
      }
      OnlyActiveCount(init, k);
    }
  }

  /** When only step `k` is active, the initial search finds `k` again, or
      -1 when `k` is out of range. */
  lemma {:induction false} OnlyActiveFound(flags: seq<bool>, k: int)
    requires OnlyActive(flags, k)
    ensures FirstActive(flags) == (if 0 <= k < |flags| then k else -1)
  {
    if 0 <= k < |flags| {
      assert flags[k];
    }
  }

  // ---------------------------------------------------------------------
  // Navigation

  /** The `incrementor` of a click: +1 on `[data-next]`, which is tested
      first, -1 on `[data-previous]`, and none on anything else. */
  function Incrementor(isNext: bool, isPrevious: bool): (r: Option<int>)
    ensures r == None <==> !isNext && !isPrevious
    ensures r == Some(1) <==> isNext
    ensures r == Some(-1) <==> !isNext && isPrevious
  {
    if isNext then Some(1) else if isPrevious then Some(-1) else None
  }

  /** `inputs.every(input => input.reportValidity())`; true for no inputs. */
  predicate AllValid(valid: seq<bool>)
  {
    forall i :: 0 <= i < |valid| ==> valid[i]
  }

  class MultiStepForm {
    /** Whether each step's class list holds `active`. */
    const active: array<bool>
    /** Whether each step's class list holds `hide`. */
    const hidden: array<bool>
    var currentStep: int

    ghost predicate Valid()
      reads this
    {
      active.Length == hidden.Length && active != hidden
    }

    /** Exactly the current step is active. */
    ghost predicate Shown()
      reads this, active
    {
      OnlyActive(active[..], currentStep)
    }

    /** Page load with at least one step: the current step is the first
        active one; when there is none, step 0 is made active and shown. */
    constructor (activeFlags: seq<bool>, hiddenFlags: seq<bool>)
      requires 0 < |activeFlags| == |hiddenFlags|
      ensures Valid() && fresh(active) && fresh(hidden)
      ensures hidden[..] == hiddenFlags
      ensures FirstActive(activeFlags) >= 0 ==>
        currentStep == FirstActive(activeFlags) && active[..] == activeFlags
      ensures FirstActive(activeFlags) < 0 ==> currentStep == 0 && Shown()
      ensures 0 <= currentStep < active.Length && active[currentStep]
    {
      active := new bool[|activeFlags|](i requires 0 <= i < |activeFlags| => activeFlags[i]);
      hidden := new bool[|hiddenFlags|](i requires 0 <= i < |hiddenFlags| => hiddenFlags[i]);
      currentStep := FirstActive(activeFlags);
      new;
      assert active[..] == activeFlags;
      if currentStep < 0 {
        currentStep := 0;
        active[0] := true;
        ShowCurrentStep();
      }
    }

    /** `showCurrentStep()`: toggle `active` on every step, on exactly for
        the current one. */
    method ShowCurrentStep()
      requires Valid()
      modifies active
      ensures Valid() && Shown()
    {
      var i := 0;
      while i < active.Length
        invariant 0 <= i <= active.Length
        invariant forall j :: 0 <= j < i ==> active[j] == (j == currentStep)
      {
        active[i] := i == currentStep;
        i := i + 1;
      }
    }

    /** A click inside the form. `inputsValid` holds, in order, what
        `reportValidity()` answers for each input of the current step.
        Looking up the inputs of a current step that does not exist throws. */
    method Click(isNext: bool, isPrevious: bool, inputsValid: seq<bool>) returns (out: Outcome)
      requires Valid()
      modifies this`currentStep, active
      ensures Valid()
      ensures out.Fail? <==>
        Incrementor(isNext, isPrevious).Some? && !(0 <= old(currentStep) < active.Length)
      ensures out.Fail? ==> out.error == TypeError
      ensures out == Pass && Incrementor(isNext, isPrevious).Some? && AllValid(inputsValid) ==>
        currentStep == old(currentStep) + Incrementor(isNext, isPrevious).value && Shown()
      ensures out.Fail? || Incrementor(isNext, isPrevious).None? || !AllValid(inputsValid) ==>
        currentStep == old(currentStep) && active[..] == old(active[..])
    {
      var incrementor := Incrementor(isNext, isPrevious);
      if incrementor.None? {
        return Pass;
      }
      if !(0 <= currentStep < active.Length) {
        return Fail(TypeError);
      }
      if AllValid(inputsValid) {
        currentStep := currentStep + incrementor.value;
        ShowCurrentStep();
      }
      return Pass;
    }

    /** The `animationend` handler of step `target`: the current step loses
        `hide`, then `target` gets `hide` exactly when it is not active. */
    method AnimationEnd(target: nat) returns (out: Outcome)
      requires Valid() && target < hidden.Length
      modifies hidden
      ensures Valid()
      ensures out == Pass <==> 0 <= currentStep < hidden.Length
      ensures out.Fail? ==> out.error == TypeError && hidden[..] == old(hidden[..])
      ensures out == Pass ==>
        hidden[..] == old(hidden[..])[currentStep := false][target := !active[target]]
      ensures out == Pass && Shown() ==>
        !hidden[currentStep] && (hidden[target] <==> target != currentStep)
    {
      if !(0 <= currentStep < hidden.Length) {
        return Fail(TypeError);
      }
      hidden[currentStep] := false;
      hidden[target] := !active[target];
      return Pass;
    }
  }

  /** `new MultiStepForm`, or the TypeError of marking step 0 of a form
      without steps. */
  method Load(activeFlags: seq<bool>, hiddenFlags: seq<bool>) returns (r: Result<MultiStepForm>)
    requires |activeFlags| == |hiddenFlags|
    ensures r.Err? <==> |activeFlags| == 0
    ensures r.Err? ==> r.error == TypeError
    ensures r.Ok? ==> fresh(r.value) && r.value.Valid()
    ensures r.Ok? ==> fresh(r.value.active) && fresh(r.value.hidden)
    ensures r.Ok? ==> r.value.active.Length == |activeFlags| && r.value.hidden[..] == hiddenFlags
    ensures r.Ok? && FirstActive(activeFlags) >= 0 ==>
      r.value.currentStep == FirstActive(activeFlags) && r.value.active[..] == activeFlags
    ensures r.Ok? && FirstActive(activeFlags) < 0 ==> r.value.currentStep == 0 && r.value.Shown()
    ensures r.Ok? ==> 0 <= r.value.currentStep < r.value.active.Length
    ensures r.Ok? ==> r.value.active[r.value.currentStep]
  {
    if |activeFlags| == 0 {
      return Err(TypeError);
    }
    var form := new MultiStepForm(activeFlags, hiddenFlags);
    return Ok(form);
  }

  /** There is no clamping: next then previous, both with valid inputs,
      comes back to the same step, except from the last step, where next
      leaves no step active and the following click throws. */
  method NextThenPrevious(form: MultiStepForm) returns (first: Outcome, second: Outcome)
    requires form.Valid() && 0 <= form.currentStep < form.active.Length
    modifies form, form.active
    ensures first == Pass
    ensures old(form.currentStep) + 1 < form.active.Length ==>
      second == Pass && form.currentStep == old(form.currentStep) && form.Shown()
    ensures old(form.currentStep) + 1 == form.active.Length ==>
      second == Fail(TypeError) && form.currentStep == form.active.Length &&
      ActiveCount(form.active[..]) == 0
  {
    first := form.Click(true, false, []);
    second := form.Click(false, true, []);
    OnlyActiveCount(form.active[..], form.currentStep);
  }

  // ---------------------------------------------------------------------
  // The submitted record

  /** An `<input>` of the first step. */
  datatype Input = Input(id: string, value: string)

  /** `inputs.find(el => el.id == id)?.value`. */
  function FindValue(inputs: seq<Input>, id: string): (r: Option<string>)
    ensures r.None? <==> forall i :: 0 <= i < |inputs| ==> inputs[i].id != id
    ensures r.Some? ==>
      exists i :: 0 <= i < |inputs| && inputs[i] == Input(id, r.value) &&
        forall j :: 0 <= j < i ==> inputs[j].id != id
  {
    var i := FindIndex(inputs, (el: Input) => el.id == id);
    if i < 0 then None
    else
      assert inputs[i] == Input(id, inputs[i].value);
      Some(inputs[i].value)
  }

  /** The record sent after the spin. */
  datatype Submission = Submission(
    name: Option<string>, email: Option<string>, phone: Option<string>,
    discount: Option<string>)

  /** The record built from the first step's inputs and the answer of
      `getCurrentWord()`; when that throws, nothing is built. */
  function Submitted(inputs: seq<Input>, currentWord: Result<Option<string>>): (r: Result<Submission>)
    ensures r.Err? <==> currentWord.Err?
    ensures r.Err? ==> r.error == currentWord.error
    ensures r.Ok? ==> r.value.discount == currentWord.value
    ensures r.Ok? ==> r.value.name == FindValue(inputs, "name")
    ensures r.Ok? ==> r.value.email == FindValue(inputs, "email")
    ensures r.Ok? ==> r.value.phone == FindValue(inputs, "phone")
  {
    if currentWord.Err? then Err(currentWord.error)
    else Ok(Submission(FindValue(inputs, "name"), FindValue(inputs, "email"),
                       FindValue(inputs, "phone"), currentWord.value))
  }

  /** The record's keys, in the order `for...in` visits them. */
  const SubmissionKeys: seq<string> := ["name", "email", "phone", "discount"]

  /** `data[key]`: `undefined` for any other key. */
  function Field(data: Submission, key: string): Option<string>
  {
    match key
    case "name" => data.name
    case "email" => data.email
    case "phone" => data.phone
    case "discount" => data.discount
    case _ => None
  }

  /** The string `FormData.append` stores for a value. */
  function Stringify(v: Option<string>): string
  {
    match v
    case None => "undefined"
    case Some(s) => s
  }

  /** The entries posted for `data`: one per key, in key order. */
  ghost predicate EntriesOf(data: Submission, entries: seq<(string, string)>)
  {
    |entries| == |SubmissionKeys| &&
    forall i :: 0 <= i < |entries| ==>
      entries[i] == (SubmissionKeys[i], Stringify(Field(data, SubmissionKeys[i])))
  }

  /** The `for...in` loop of `uploadData` appending each key of `data`. */
  method FormDataEntries(data: Submission) returns (entries: seq<(string, string)>)
    ensures EntriesOf(data, entries)
  {
    entries := [];
    var i := 0;
    while i < |SubmissionKeys|
      invariant 0 <= i <= |SubmissionKeys|
      invariant |entries| == i
      invariant forall j :: 0 <= j < i ==>
        entries[j] == (SubmissionKeys[j], Stringify(Field(data, SubmissionKeys[j])))
    {
      var key := SubmissionKeys[i];
      entries := entries + [(key, Stringify(Field(data, key)))];
      i := i + 1;
    }
  }

  /** `formData.get(key)`, the value of the first entry under `key`. The
      source never reads the entries back; this is how the lemmas below
      observe them. */
  function Get(entries: seq<(string, string)>, key: string): (r: Option<string>)
    ensures r.None? <==> forall i :: 0 <= i < |entries| ==> entries[i].0 != key
  {
    if |entries| == 0 then None
    else if entries[0].0 == key then Some(entries[0].1)
    else Get(entries[1..], key)
  }

  /** `Get` answers with the first entry under `key`. */
  lemma {:induction false} GetFindsFirst(entries: seq<(string, string)>, key: string, i: nat)
    requires i < |entries| && entries[i].0 == key
    requires forall j :: 0 <= j < i ==> entries[j].0 != key
    ensures Get(entries, key) == Some(entries[i].1)
    decreases i
  {
    if i > 0 {
      GetFindsFirst(entries[1..], key, i - 1);
    }
  }

  /** The posted entries hold every field of the record under its own key,
      and nothing under any other key. */
  lemma {:induction false} EntriesHoldRecord(data: Submission, entries: seq<(string, string)>, key: string)
    requires EntriesOf(data, entries)
    ensures key in SubmissionKeys ==> Get(entries, key) == Some(Stringify(Field(data, key)))
    ensures key !in SubmissionKeys ==> Get(entries, key) == None
  {
    assert entries == [("name", Stringify(data.name)), ("email", Stringify(data.email)),
                       ("phone", Stringify(data.phone)), ("discount", Stringify(data.discount))];
    var rest := entries[1..][1..][1..];
    assert rest == [("discount", Stringify(data.discount))];
    assert rest[1..] == [];
    if key == "name" {
      assert Field(data, key) == data.name;
    } else if key == "email" {
      assert Field(data, key) == data.email;
    } else if key == "phone" {
      assert Get(entries[1..], key) == Get(entries[1..][1..], key);
      assert Field(data, key) == data.phone;
    } else if key == "discount" {
      assert Get(entries[1..], key) == Get(entries[1..][1..], key) == Get(rest, key);
      assert Field(data, key) == data.discount;
    } else {
      assert Get(entries[1..], key) == Get(entries[1..][1..], key) == Get(rest, key);
    }
  }

  /** The posted entries, read back key by key, are the record's fields. */
  lemma {:induction false} EntriesHoldFields(data: Submission, entries: seq<(string, string)>)
    requires EntriesOf(data, entries)
    ensures Get(entries, "name") == Some(Stringify(data.name))
    ensures Get(entries, "email") == Some(Stringify(data.email))
    ensures Get(entries, "phone") == Some(Stringify(data.phone))
    ensures Get(entries, "discount") == Some(Stringify(data.discount))
  {
    EntriesHoldRecord(data, entries, "name");
    EntriesHoldRecord(data, entries, "email");
    EntriesHoldRecord(data, entries, "phone");
    EntriesHoldRecord(data, entries, "discount");
  }

  /** Every field the form fills in reaches the posted entries: the name,
      email and phone typed in the first step, and the selected word. */
  lemma {:induction false} SubmissionPosted(inputs: seq<Input>, word: string, data: Submission,
                                           entries: seq<(string, string)>)
    requires Submitted(inputs, Ok(Some(word))) == Ok(data)
    requires EntriesOf(data, entries)
    ensures Get(entries, "discount") == Some(word)
    ensures Get(entries, "name") == Some(Stringify(FindValue(inputs, "name")))
    ensures Get(entries, "email") == Some(Stringify(FindValue(inputs, "email")))
    ensures Get(entries, "phone") == Some(Stringify(FindValue(inputs, "phone")))
  {
    EntriesHoldFields(data, entries);
  }
}
