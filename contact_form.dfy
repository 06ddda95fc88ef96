/** The front-end-only contact form: submitting it never sends anything; it
    checks that the three required fields are filled in, shows one of two
    status messages, and resets the form to its default values when the check
    passes. */
module ContactForm {
  import opened Optional
  import opened Strings

  /** The two outcomes of a submission: the warning that asks for the
      required fields, or the thank-you message. */
  datatype Verdict = Incomplete | Accepted

  /** A required field is filled in when the form has it and it holds a
      character other than white space. */
  predicate Filled(fields: map<string, string>, key: string)
  {
    key in fields && !AllSpace(fields[key])
  }

  /** `(data.get(key) || '').trim()`: the trimmed value of the named control,
      the empty string when the form has no control of that name. */
  function Entry(fields: map<string, string>, key: string): (e: string)
    ensures e == [] <==> !Filled(fields, key)
  {
    Trim(OrEmpty(if key in fields then Some(fields[key]) else None))
  }

  /** The check made on submission: the form is accepted exactly when name,
      email and message are all filled in; no other field and no format
      matters. */
  function Judge(fields: map<string, string>): (v: Verdict)
    ensures v == Accepted <==>
      Filled(fields, "name") && Filled(fields, "email") && Filled(fields, "message")
  {
    var name := Entry(fields, "name");
    var email := Entry(fields, "email");
    var message := Entry(fields, "message");
    if name == [] || email == [] || message == [] then Incomplete else Accepted
  }

  /** White space around a value, on either side and of any amount, never
      changes the verdict. */
  lemma {:induction false} PaddingIgnored(fields: map<string, string>, key: string, pre: string, post: string)
    requires AllSpace(pre) && AllSpace(post) && key in fields
    ensures Judge(fields[key := pre + fields[key] + post]) == Judge(fields)
  {
    var v := fields[key];
    var padded := pre + v + post;
    assert AllSpace(padded) <==> AllSpace(v) by {
      if AllSpace(v) {
        forall k | 0 <= k < |padded| ensures IsSpace(padded[k]) {
          if k < |pre| { assert padded[k] == pre[k]; }
          else if k < |pre| + |v| { assert padded[k] == v[k - |pre|]; }
          else { assert padded[k] == post[k - |pre| - |v|]; }
        }
      }
      if AllSpace(padded) {
        forall k | 0 <= k < |v| ensures IsSpace(v[k]) {
          assert v[k] == padded[|pre| + k];
        }
      }
    }
    var g := fields[key := padded];
    forall f | f in ["name", "email", "message"] ensures Filled(g, f) == Filled(fields, f) {
    }
  }

  /** The contact form element: the current values of its named controls, the
      values `reset()` restores, and the status note next to it, which may be
      missing from the page. */
  class Form {
    var fields: map<string, string>
    const defaults: map<string, string>
    const hasNote: bool
    /** What the note shows: `None` while it still shows the page's own text. */
    var note: Option<Verdict>

    constructor (fields: map<string, string>, defaults: map<string, string>, hasNote: bool)
      ensures this.fields == fields && this.defaults == defaults
      ensures this.hasNote == hasNote && note == None
    {
      this.fields := fields;
      this.defaults := defaults;
      this.hasNote := hasNote;
      note := None;
    }

    /** The submit handler. Default submission is always suppressed and the
        verdict is `Judge` of the submitted values. An incomplete form keeps
        every value and the note (if there is one) shows the warning; an
        accepted form shows the thank-you message and is reset to its default
        values. */
    method Submit() returns (defaultPrevented: bool, verdict: Verdict)
      modifies this
      ensures defaultPrevented
      ensures verdict == Judge(old(fields))
      ensures fields == if verdict == Accepted then defaults else old(fields)
      ensures note == if hasNote then Some(verdict) else old(note)
    {
      var submitted := fields;
      verdict := Judge(submitted);
      if hasNote {
        note := Some(verdict);
      }
      if verdict == Accepted {
        fields := defaults;
      }
      defaultPrevented := true;
    }
  }
}
