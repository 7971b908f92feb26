/**
 * SmartTextBox: a text box that re-runs its optional validator on every text
 * change and publishes IsValid and ErrorMessage.
 */
module SmartTextBoxControl {
  import opened Wrappers
  import opened Validators

  /** WPF's CornerRadius: one radius per corner. */
  datatype CornerRadius = CornerRadius(topLeft: real, topRight: real, bottomRight: real, bottomLeft: real)

  /** new CornerRadius(4): the same radius on every corner. */
  function UniformRadius(r: real): CornerRadius
  {
    CornerRadius(r, r, r, r)
  }

  /** The (IsValid, ErrorMessage) pair the control publishes for a validator
      and a text (lines 101-109). */
  datatype ValidationOutcome = ValidationOutcome(isValid: bool, errorMessage: string)

  function OutcomeOf(validator: Option<Validator>, text: string): (o: ValidationOutcome)
  {
    match validator
    case None => ValidationOutcome(true, "")
    case Some(v) =>
      var ok := Accepts(v, text);
      ValidationOutcome(ok, if ok then "" else v.message)
  }

  /** The error message is empty when the text is valid and is the validator's
      message otherwise; with a validator whose message is non-empty (all the
      default messages are), the message is empty exactly when the text is valid. */
  lemma OutcomeMessage(validator: Option<Validator>, text: string)
    ensures OutcomeOf(validator, text).isValid ==> OutcomeOf(validator, text).errorMessage == ""
    ensures !OutcomeOf(validator, text).isValid
        ==> validator.Some? && OutcomeOf(validator, text).errorMessage == validator.value.message
    ensures validator.Some? && validator.value.message != []
        ==> (OutcomeOf(validator, text).errorMessage == "" <==> OutcomeOf(validator, text).isValid)
  {
  }

  class SmartTextBox {
    var text: string
    var header: string
    var placeholder: string
    var cornerRadius: CornerRadius
    var validator: Option<Validator>
    var isValid: bool
    var errorMessage: string

    /** IsValid and ErrorMessage agree with the validator's verdict on Text. */
    predicate Settled()
      reads this
    {
      ValidationOutcome(isValid, errorMessage) == OutcomeOf(validator, text)
    }

    /** The registered defaults (lines 14, 21, 28, 35, 42, 49); Text starts empty. */
    constructor ()
      ensures text == "" && header == "" && placeholder == ""
      ensures cornerRadius == UniformRadius(4.0)
      ensures validator == None && isValid && errorMessage == ""
      ensures Settled()
    {
      text := "";
      header := "";
      placeholder := "";
      cornerRadius := UniformRadius(4.0);
      validator := None;
      isValid := true;
      errorMessage := "";
    }

    /** OnTextChanged (lines 99-110): recompute IsValid and ErrorMessage. */
    method OnTextChanged()
      modifies this
      ensures text == old(text) && validator == old(validator)
      ensures header == old(header) && placeholder == old(placeholder) && cornerRadius == old(cornerRadius)
      ensures validator.None? ==> isValid && errorMessage == ""
      ensures validator.Some? ==> isValid == Accepts(validator.value, text)
      ensures validator.Some? ==> errorMessage == if isValid then "" else validator.value.message
      ensures validator.Some? && validator.value.message != [] ==> (errorMessage == "" <==> isValid)
      ensures Settled()
      ensures old(Settled()) ==> isValid == old(isValid) && errorMessage == old(errorMessage)
    {
      if validator.None? {
        isValid := true;
        errorMessage := "";
        return;
      }
      isValid := Validate(validator.value, text);
      errorMessage := if isValid then "" else validator.value.message;
      OutcomeMessage(validator, text);
    }

    /** Assigning Text: WPF stores the new value and raises TextChanged, which
        the constructor subscribed OnTextChanged to (line 60). A string
        dependency property compares by value, so assigning the text it
        already holds raises nothing and the outcome stays as it was. */
    method SetText(t: string)
      modifies this
      ensures text == t && validator == old(validator)
      ensures header == old(header) && placeholder == old(placeholder) && cornerRadius == old(cornerRadius)
      ensures t != old(text) ==> ValidationOutcome(isValid, errorMessage) == OutcomeOf(validator, t)
      ensures t == old(text) ==> isValid == old(isValid) && errorMessage == old(errorMessage)
    {
      if t != text {
        text := t;
        OnTextChanged();
      }
    }

    /** Assigning Validator (lines 81-85) does not re-validate: IsValid and
        ErrorMessage keep their values until the next text change. */
    method SetValidator(v: Option<Validator>)
      modifies this
      ensures validator == v
      ensures text == old(text) && isValid == old(isValid) && errorMessage == old(errorMessage)
      ensures header == old(header) && placeholder == old(placeholder) && cornerRadius == old(cornerRadius)
    {
      validator := v;
    }
  }
}
