/** The required-text validation rule of the settings form: a value passes when it
    is a non-empty string, and, only when the rule is asked to, when it also holds
    something other than white space. A failing check records the rule's message. */
module Validation {
  import opened Wrappers
  import opened Text

  /** The object handed to IsValid: null, a string, or an object of another type. */
  datatype Value = Null | Str(text: string) | Other

  /** The decision IsValid takes, branch by branch: null fails, a non-string or an empty
      string fails, a white-space string fails when white space is checked, anything else
      passes. */
  predicate Accepts(value: Value, validateWhiteSpace: bool)
  {
    if value.Null? then false
    else if value.Other? || value.text == "" then false
    else if validateWhiteSpace && IsNullOrWhiteSpace(Some(value.text)) then false
    else true
  }

  /** What passes: exactly the non-empty strings, and with white space checked exactly the
      strings holding a character that is not white space. */
  lemma AcceptsExactly(value: Value, validateWhiteSpace: bool)
    ensures !validateWhiteSpace ==> (Accepts(value, validateWhiteSpace) <==> value.Str? && |value.text| > 0)
    ensures validateWhiteSpace ==> (Accepts(value, validateWhiteSpace) <==>
      value.Str? && exists i :: 0 <= i < |value.text| && !IsWhiteSpace(value.text[i]))
  {
  }

  /** Checking white space only ever rejects more: the two settings differ on the
      non-empty strings made of white space alone, and nowhere else. */
  lemma WhiteSpaceCheckStricter(value: Value)
    ensures Accepts(value, true) ==> Accepts(value, false)
    ensures Accepts(value, false) && !Accepts(value, true) <==>
      value.Str? && |value.text| > 0 && AllWhiteSpace(value.text)
  {
  }

  /** StringRequireValidatorAttribute: the message of its inner required rule, the
      flag that turns on the white-space check, and the message of the last failure. */
  class StringRequireValidator {
    /** RequiredValidator.ErrorMessage, fixed by the constructor. */
    const requiredMessage: Option<string>
    var isValidateWhiteSpace: bool
    /** ErrorMessage, inherited from RequiredAttribute; unset until a check fails. */
    var errorMessage: Option<string>

    /** StringRequireValidatorAttribute(errorMessages): the inner rule keeps the message;
        white space is not checked. */
    constructor (errorMessages: Option<string>)
      ensures requiredMessage == errorMessages && !isValidateWhiteSpace && errorMessage == None
    {
      requiredMessage := errorMessages;
      isValidateWhiteSpace := false;
      errorMessage := None;
    }

    /** IsValid: the answer is the decision above, and every failure copies the inner
        rule's message into ErrorMessage; a pass leaves it as it was. */
    method IsValid(value: Value) returns (ok: bool)
      modifies this`errorMessage
      ensures ok == Accepts(value, isValidateWhiteSpace)
      ensures errorMessage == if ok then old(errorMessage) else requiredMessage
    {
      if value.Null? {
        errorMessage := requiredMessage;
        return false;
      }
      var str: Option<string> := if value.Str? then Some(value.text) else None;
      if IsNullOrEmpty(str) {
        errorMessage := requiredMessage;
        return false;
      }
      if isValidateWhiteSpace && IsNullOrWhiteSpace(str) {
        errorMessage := requiredMessage;
        return false;
      }
      return true;
    }
  }
}
