/** The per-field error messages of a submitted form: a map from field name
    to the messages recorded for it, in the order they were added. */
module FormErrors {

  type Errors = map<string, seq<string>>

  const NoErrors: Errors := map[]

  /** The messages recorded for `field` (none when the key is absent, as a
      Go map yields a nil slice for a missing key). */
  function Messages(e: Errors, field: string): seq<string>
  {
    if field in e then e[field] else []
  }

  /** Every key present carries at least one message, which holds for any
      map built by `Add` alone. */
  ghost predicate NoEmptyLists(e: Errors)
  {
    forall field :: field in e ==> e[field] != []
  }

  /** Every message of `e` is still present, in place, in `e'`. */
  ghost predicate Extends(e: Errors, e': Errors)
  {
    && e.Keys <= e'.Keys
    && forall field :: Messages(e, field) <= Messages(e', field)
  }

  /** `errors.Add`: appends `msg` to the messages of `field`. */
  function Add(e: Errors, field: string, msg: string): (r: Errors)
    ensures Messages(r, field) == Messages(e, field) + [msg]
    ensures forall other :: other != field ==> Messages(r, other) == Messages(e, other)
    ensures r.Keys == e.Keys + {field}
    ensures Extends(e, r)
    ensures NoEmptyLists(e) ==> NoEmptyLists(r)
  {
    e[field := Messages(e, field) + [msg]]
  }

  /** `errors.Get`: the first message recorded for `field`, or "" when there
      is none. */
  function Get(e: Errors, field: string): string
  {
    var es := Messages(e, field);
    if |es| == 0 then "" else es[0]
  }

  /** Records each `(field, message)` pair in turn with `Add`. */
  function AddAll(e: Errors, adds: seq<(string, string)>): Errors
    decreases |adds|
  {
    if |adds| == 0 then e else AddAll(Add(e, adds[0].0, adds[0].1), adds[1..])
  }

  /** The messages among `adds` that concern `field`, in order. */
  function MessagesFor(adds: seq<(string, string)>, field: string): seq<string>
  {
    if |adds| == 0 then []
    else (if adds[0].0 == field then [adds[0].1] else []) + MessagesFor(adds[1..], field)
  }

  /** A run of `Add`s appends, for each field, exactly its own messages in
      the order they were added; no other field is affected. */
  lemma {:induction false} AddAllMessages(e: Errors, adds: seq<(string, string)>, field: string)
    ensures Messages(AddAll(e, adds), field) == Messages(e, field) + MessagesFor(adds, field)
    decreases |adds|
  {
    if |adds| > 0 {
      AddAllMessages(Add(e, adds[0].0, adds[0].1), adds[1..], field);
    }
  }

  /** `Get` reports the first message ever added for a field, whatever is
      added afterwards, and "" while there is none. */
  lemma GetReturnsFirstAdded(e: Errors, adds: seq<(string, string)>, field: string)
    ensures Messages(e, field) != [] ==> Get(AddAll(e, adds), field) == Get(e, field)
    ensures Messages(e, field) == [] && MessagesFor(adds, field) == [] ==> Get(AddAll(e, adds), field) == ""
    ensures Messages(e, field) == [] && MessagesFor(adds, field) != [] ==>
      Get(AddAll(e, adds), field) == MessagesFor(adds, field)[0]
  {
    AddAllMessages(e, adds, field);
  }
}
