/** The e-mail composer's form state and its submit handler. */
module Composer {
  import opened EmailAddress

  /** The fields that can carry an error message. */
  datatype Field = To | Subject

  /** What the form hands to its onSubmit callback. */
  datatype EmailData = EmailData(to: string, cc: string, subject: string, body: string)

  const ToRequiredMessage: string := "O campo 'Para' \U{00E9} obrigat\U{00F3}rio"
  const ToInvalidMessage: string := "Email inv\U{00E1}lido"
  const SubjectRequiredMessage: string := "O campo 'Assunto' \U{00E9} obrigat\U{00F3}rio"

  /** The error record a submit computes from the "to" and "subject" fields:
      a required check on "to", else a format check, and a required check on
      "subject". */
  function SubmitErrors(to: string, subject: string): (errs: map<Field, string>)
    ensures To in errs <==> !IsAddress(to)
    ensures To in errs ==> (errs[To] == ToRequiredMessage <==> to == "")
    ensures To in errs ==> (errs[To] == ToInvalidMessage <==> to != "")
    ensures Subject in errs <==> subject == ""
    ensures Subject in errs ==> errs[Subject] == SubjectRequiredMessage
    ensures errs == map[] <==> IsAddress(to) && subject != ""
  {
    var toErrs: map<Field, string> :=
      if to == "" then map[To := ToRequiredMessage]
      else if !ValidateEmail(to) then map[To := ToInvalidMessage]
      else map[];
    assert to == "" ==> !IsAddress(to);
    if subject == "" then toErrs[Subject := SubjectRequiredMessage] else toErrs
  }

  /** A "to" value made only of whitespace is not empty, so it passes the
      required check and fails the format check. */
  lemma WhitespaceToIsInvalid(to: string, subject: string)
    requires to != ""
    requires forall k :: 0 <= k < |to| ==> IsWhitespace(to[k])
    ensures To in SubmitErrors(to, subject)
    ensures SubmitErrors(to, subject)[To] == ToInvalidMessage
  {
    assert !IsAddressChar(to[0]);
  }

  /** The form: four text fields, the error record shown under them, and the
      ghost log of every payload passed to onSubmit. */
  class EmailForm {
    var to: string
    var cc: string
    var subject: string
    var body: string
    var errors: map<Field, string>
    ghost var submitted: seq<EmailData>

    /** Every payload ever submitted had a valid address and a subject. */
    ghost predicate Valid()
      reads this
    {
      forall k :: 0 <= k < |submitted| ==>
        IsAddress(submitted[k].to) && submitted[k].subject != ""
    }

    /** The form as first rendered: every field empty, no errors. */
    constructor ()
      ensures Valid()
      ensures to == "" && cc == "" && subject == "" && body == ""
      ensures errors == map[] && submitted == []
    {
      to, cc, subject, body := "", "", "", "";
      errors := map[];
      submitted := [];
    }

    /** The onChange binding of the "to" input. */
    method SetTo(value: string)
      modifies this`to
      ensures to == value
    {
      to := value;
    }

    /** The onChange binding of the "cc" input. */
    method SetCc(value: string)
      modifies this`cc
      ensures cc == value
    {
      cc := value;
    }

    /** The onChange binding of the "subject" input. */
    method SetSubject(value: string)
      modifies this`subject
      ensures subject == value
    {
      subject := value;
    }

    /** The onChange binding of the body text area. */
    method SetBody(value: string)
      modifies this`body
      ensures body == value
    {
      body := value;
    }

    /** handleSubmit: recompute the error record from scratch, replace the
        shown errors with it, and call onSubmit with the four field values
        only when the record is empty. */
    method HandleSubmit()
      requires Valid()
      modifies this`errors, this`submitted
      ensures Valid()
      ensures to == old(to) && cc == old(cc) && subject == old(subject) && body == old(body)
      ensures errors == SubmitErrors(to, subject)
      ensures IsAddress(to) && subject != "" ==>
        submitted == old(submitted) + [EmailData(to, cc, subject, body)]
      ensures !(IsAddress(to) && subject != "") ==> submitted == old(submitted)
    {
      var newErrors: map<Field, string> := map[];
      if to == "" {
        newErrors := newErrors[To := ToRequiredMessage];
      } else if !ValidateEmail(to) {
        newErrors := newErrors[To := ToInvalidMessage];
      }
      if subject == "" {
        newErrors := newErrors[Subject := SubjectRequiredMessage];
      }
      errors := newErrors;
      if |newErrors| == 0 {
        submitted := submitted + [EmailData(to, cc, subject, body)];
      }
    }
  }

  /** A caller's view: a first submit of the empty form shows both required
      messages and sends nothing; once the fields hold a valid address and a
      subject, a second submit clears those messages and sends exactly the
      field values. */
  method SubmitTwice(address: string, title: string, text: string)
    requires ValidateEmail(address) && title != ""
  {
    var form := new EmailForm();
    form.HandleSubmit();
    assert form.errors[To] == ToRequiredMessage;
    assert form.errors[Subject] == SubjectRequiredMessage;
    assert form.submitted == [];

    form.SetTo(address);
    form.SetSubject(title);
    form.SetBody(text);
    form.HandleSubmit();
    assert form.errors == map[];
    assert form.submitted == [EmailData(address, "", title, text)];
  }
}
