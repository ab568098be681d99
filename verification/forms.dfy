/** Server-side form validation: a form holds the posted values and the
    per-field errors its checks have recorded. A check only ever adds
    messages. */
module Forms {
  import opened FormErrors
  import Text

  /** Posted values, each key with its list of values (`url.Values`). */
  type Values = map<string, seq<string>>

  /** `url.Values.Get`: the first value posted for `key`, or "". */
  function ValueOf(v: Values, key: string): string
  {
    if key in v && |v[key]| > 0 then v[key][0] else ""
  }

  datatype Form = Form(values: Values, errors: Errors)

  const EmptyMessage: string := "This field can not be empty."
  const EmailMessage: string := "Invalid e-mail address"

  function MinLengthMessage(length: int): string
  {
    "This field needs at least " + Text.IntToString(length) + " characters"
  }

  /** `Valid`: no field has an error entry. */
  predicate Valid(f: Form)
  {
    |f.errors| == 0
  }

  /** `New`: a form over `data` with no errors, hence valid. */
  function New(data: Values): (f: Form)
    ensures f.values == data
    ensures forall field :: Messages(f.errors, field) == []
    ensures Valid(f) && NoEmptyLists(f.errors)
  {
    Form(data, NoErrors)
  }

  /** On maps built by `Add`, validity means no field has any message. */
  lemma ValidIffNoMessages(f: Form)
    requires NoEmptyLists(f.errors)
    ensures Valid(f) <==> forall field :: Messages(f.errors, field) == []
  {
    if !Valid(f) {
      var field :| field in f.errors;
      assert Messages(f.errors, field) != [];
    }
  }

  /** Once a check has recorded an error, no later check can make the form
      valid again, because checks only add messages. */
  lemma InvalidStaysInvalid(f: Form, g: Form)
    requires Extends(f.errors, g.errors)
    requires !Valid(f)
    ensures !Valid(g)
  {
    var field :| field in f.errors;
    assert field in g.errors;
  }

  /** `Has`: fails and records a message exactly when the request value is
      the empty string; white space counts as present. */
  function Has(f: Form, field: string, request: Values): (r: (Form, bool))
    ensures r.0.values == f.values
    ensures r.1 <==> ValueOf(request, field) != ""
    ensures Messages(r.0.errors, field) == Messages(f.errors, field) + (if r.1 then [] else [EmptyMessage])
    ensures forall other :: other != field ==> Messages(r.0.errors, other) == Messages(f.errors, other)
    ensures Extends(f.errors, r.0.errors)
    ensures NoEmptyLists(f.errors) ==> NoEmptyLists(r.0.errors)
  {
    var x := ValueOf(request, field);
    if x == "" then (f.(errors := Add(f.errors, field, EmptyMessage)), false)
    else (f, true)
  }

  /** The `Required` test: the value is empty or white space only, which is
      when nothing is left after trimming (see `BlankIffTrimmedEmpty`). */
  predicate IsBlank(s: string)
  {
    Text.AllSpace(s)
  }

  /** `IsBlank` is exactly the test `strings.TrimSpace(value) == ""`. */
  lemma BlankIffTrimmedEmpty(s: string)
    ensures IsBlank(s) <==> Text.TrimSpace(s) == ""
  {
  }

  /** One step of `Required`. */
  function RequireOne(f: Form, field: string): (r: Form)
    ensures r.values == f.values
    ensures Messages(r.errors, field) == Messages(f.errors, field) +
      (if IsBlank(ValueOf(f.values, field)) then [EmptyMessage] else [])
    ensures forall other :: other != field ==> Messages(r.errors, other) == Messages(f.errors, other)
    ensures Extends(f.errors, r.errors)
    ensures NoEmptyLists(f.errors) ==> NoEmptyLists(r.errors)
  {
    if IsBlank(ValueOf(f.values, field)) then
      f.(errors := Add(f.errors, field, EmptyMessage))
    else
      assert Messages(f.errors, field) + [] == Messages(f.errors, field);
      f
  }

  /** `n` copies of `m`. */
  function Repeat(m: string, n: nat): (r: seq<string>)
    ensures |r| == n && forall k :: 0 <= k < n ==> r[k] == m
  {
    seq(n, _ => m)
  }

  /** `Required`: runs the trimmed-emptiness check on each listed field in
      turn. */
  function Required(f: Form, fields: seq<string>): (r: Form)
    ensures r.values == f.values
    ensures Extends(f.errors, r.errors)
    ensures NoEmptyLists(f.errors) ==> NoEmptyLists(r.errors)
    decreases |fields|
  {
    if |fields| == 0 then f
    else
      var r := Required(RequireOne(f, fields[0]), fields[1..]);
      assert forall field :: Messages(f.errors, field) <= Messages(r.errors, field);
      r
  }

  /** The `Add`s `Required` performs: one "can not be empty" message for
      each listed field whose value is blank, in order. */
  function RequiredAdds(values: Values, fields: seq<string>): seq<(string, string)>
  {
    if |fields| == 0 then []
    else (if IsBlank(ValueOf(values, fields[0])) then [(fields[0], EmptyMessage)] else [])
         + RequiredAdds(values, fields[1..])
  }

  /** `Required` is exactly that run of `Add`s. */
  lemma {:induction false} RequiredIsAddAll(f: Form, fields: seq<string>)
    ensures Required(f, fields).errors == AddAll(f.errors, RequiredAdds(f.values, fields))
    decreases |fields|
  {
    if |fields| > 0 {
      var g := RequireOne(f, fields[0]);
      var rest := RequiredAdds(f.values, fields[1..]);
      assert Required(f, fields) == Required(g, fields[1..]);
      RequiredIsAddAll(g, fields[1..]);
      if IsBlank(ValueOf(f.values, fields[0])) {
        var adds := [(fields[0], EmptyMessage)] + rest;
        assert RequiredAdds(f.values, fields) == adds;
        assert adds[0] == (fields[0], EmptyMessage) && adds[1..] == rest;
        assert AddAll(f.errors, adds) == AddAll(g.errors, rest);
      } else {
        assert RequiredAdds(f.values, fields) == rest;
      }
    }
  }

  /** The first listed field contributes at most one message for `field`. */
  lemma RequiredAddsHead(values: Values, fields: seq<string>, field: string)
    requires |fields| > 0
    ensures MessagesFor(RequiredAdds(values, fields), field) ==
              (if fields[0] == field && IsBlank(ValueOf(values, field)) then [EmptyMessage] else []) +
              MessagesFor(RequiredAdds(values, fields[1..]), field)
  {
    var rest := RequiredAdds(values, fields[1..]);
    var adds := RequiredAdds(values, fields);
    if IsBlank(ValueOf(values, fields[0])) {
      assert adds == [(fields[0], EmptyMessage)] + rest;
      assert adds[0] == (fields[0], EmptyMessage) && adds[1..] == rest;
      assert MessagesFor(adds, field) == (if fields[0] == field then [EmptyMessage] else []) + MessagesFor(rest, field);
    } else {
      assert adds == rest;
    }
  }

  /** Of the `Add`s `Required` performs, those for `field` are one message
      per listing of `field` when its value is blank, and none otherwise. */
  lemma {:induction false} RequiredAddsFor(values: Values, fields: seq<string>, field: string)
    ensures MessagesFor(RequiredAdds(values, fields), field) ==
              if IsBlank(ValueOf(values, field)) then Repeat(EmptyMessage, multiset(fields)[field]) else []
    decreases |fields|
  {
    if |fields| > 0 {
      RequiredAddsHead(values, fields, field);
      RequiredAddsFor(values, fields[1..], field);
      CountHead(fields, field);
      if IsBlank(ValueOf(values, field)) && fields[0] == field {
        RepeatAppend(EmptyMessage, 1, multiset(fields[1..])[field]);
      }
    }
  }

  /** For each listed field whose value is empty after trimming white space,
      `Required` records one "can not be empty" message per listing; other
      fields are untouched. */
  lemma RequiredMessages(f: Form, fields: seq<string>, field: string)
    ensures Messages(Required(f, fields).errors, field) == Messages(f.errors, field) +
              (if IsBlank(ValueOf(f.values, field)) then Repeat(EmptyMessage, multiset(fields)[field]) else [])
  {
    RequiredIsAddAll(f, fields);
    AddAllMessages(f.errors, RequiredAdds(f.values, fields), field);
    RequiredAddsFor(f.values, fields, field);
  }

  /** How often `field` is listed: its first listing plus the rest. */
  lemma CountHead(fields: seq<string>, field: string)
    requires |fields| > 0
    ensures multiset(fields)[field] == (if fields[0] == field then 1 else 0) + multiset(fields[1..])[field]
  {
    assert fields == [fields[0]] + fields[1..];
  }

  /** Two runs of the same message join into one run. */
  lemma RepeatAppend(m: string, a: nat, b: nat)
    ensures Repeat(m, a) + Repeat(m, b) == Repeat(m, a + b)
  {
  }

  /** `MinLength`: fails and records one message exactly when the request
      value is shorter than `length` bytes of UTF-8. */
  function MinLength(f: Form, field: string, length: int, request: Values): (r: (Form, bool))
    ensures r.0.values == f.values
    ensures r.1 <==> Text.Utf8Len(ValueOf(request, field)) >= length
    ensures Messages(r.0.errors, field) ==
      Messages(f.errors, field) + (if r.1 then [] else [MinLengthMessage(length)])
    ensures forall other :: other != field ==> Messages(r.0.errors, other) == Messages(f.errors, other)
    ensures Extends(f.errors, r.0.errors)
    ensures NoEmptyLists(f.errors) ==> NoEmptyLists(r.0.errors)
  {
    var value := Text.Utf8Len(ValueOf(request, field));
    if value < length then (f.(errors := Add(f.errors, field, MinLengthMessage(length))), false)
    else (f, true)
  }

  /** `IsEmail`: records one message exactly when the e-mail predicate
      rejects the request value. The predicate itself (govalidator) is a
      parameter. */
  function IsEmail(f: Form, field: string, request: Values, isEmail: string -> bool): (r: Form)
    ensures r.values == f.values
    ensures Messages(r.errors, field) ==
      Messages(f.errors, field) + (if isEmail(ValueOf(request, field)) then [] else [EmailMessage])
    ensures forall other :: other != field ==> Messages(r.errors, other) == Messages(f.errors, other)
    ensures Extends(f.errors, r.errors)
    ensures NoEmptyLists(f.errors) ==> NoEmptyLists(r.errors)
  {
    if !isEmail(ValueOf(request, field)) then f.(errors := Add(f.errors, field, EmailMessage)) else f
  }

  /** A white-space-only value passes `Has` but fails `Required`. */
  lemma BlankPassesHasFailsRequired(f: Form, field: string)
    requires ValueOf(f.values, field) != "" && Text.TrimSpace(ValueOf(f.values, field)) == ""
    ensures Has(f, field, f.values).1
    ensures Messages(Required(f, [field]).errors, field) == Messages(f.errors, field) + [EmptyMessage]
  {
    RequiredMessages(f, [field], field);
    assert multiset([field])[field] == 1;
    assert Repeat(EmptyMessage, 1) == [EmptyMessage];
  }
}
