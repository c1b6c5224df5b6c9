/**
 * The staged-save step of the three save handlers: the confirmed form is
 * checked for its required fields and appended to the product line's store
 * with the next sequence number.
 */
module RecordStore {
  import opened Records

  /** The submitted save form, `request.form`: a field that was not sent is
      absent. */
  type Form = map<string, string>

  /** `form.get(name, '')`. */
  function FormField(form: Form, name: string): string
  {
    if name in form then form[name] else ""
  }

  /** The guard of the save handler (`not all([sn, sc, pid])` for IMOU,
      `not sn` for HIK and Dahua): every required field was sent and is not
      empty. */
  predicate Accepts(line: ProductLine, form: Form)
  {
    forall f | f in RequiredFields(line) :: f in form && form[f] != ""
  }

  /** The text fields of the new record: the required fields from the form,
      and `note`, which defaults to `''`. */
  function NewFields(line: ProductLine, form: Form): map<string, string>
  {
    match line
    case Imou =>
      map["sn" := FormField(form, "sn"), "sc" := FormField(form, "sc"),
          "pid" := FormField(form, "pid"), "note" := FormField(form, "note")]
    case _ =>
      map["sn" := FormField(form, "sn"), "note" := FormField(form, "note")]
  }

  /** The new record carries exactly the stored columns other than `stt`. */
  lemma NewFieldsKeys(line: ProductLine, form: Form)
    ensures forall c :: c in NewFields(line, form) <==> c in Columns(line)[1..]
  {
    var cols := Columns(line)[1..];
    match line
    case Imou =>
      assert cols == ["sn", "sc", "pid", "note"];
    case _ =>
      assert cols == ["sn", "note"];
  }

  /** The required fields of the new record hold the form's values, and
      `note` defaults to `''`. */
  lemma NewFieldsValues(line: ProductLine, form: Form)
    ensures forall f | f in RequiredFields(line) :: f in NewFields(line, form) && NewFields(line, form)[f] == FormField(form, f)
    ensures "note" in NewFields(line, form) && NewFields(line, form)["note"] == FormField(form, "note")
    ensures "note" !in form ==> NewFields(line, form)["note"] == ""
  {
  }

  /** The store after one save: unchanged when the guard refuses the form,
      otherwise the new record with `stt = len(records) + 1` at the end. */
  function Append(records: seq<Record>, line: ProductLine, form: Form): seq<Record>
  {
    if Accepts(line, form) then records + [Record(|records| + 1, NewFields(line, form))] else records
  }

  /** The records carry the sequence numbers 1, 2, ... in order. */
  predicate Numbered(records: seq<Record>)
  {
    forall i | 0 <= i < |records| :: records[i].stt == i + 1
  }

  /** A save adds exactly one record, at the end, numbered one past the old
      length, and leaves the earlier records as they were; a refused save
      changes nothing. Numbering is preserved. */
  lemma AppendSpec(records: seq<Record>, line: ProductLine, form: Form)
    ensures Accepts(line, form) ==>
              && |Append(records, line, form)| == |records| + 1
              && Append(records, line, form)[..|records|] == records
              && Append(records, line, form)[|records|].stt == |records| + 1
    ensures !Accepts(line, form) ==> Append(records, line, form) == records
    ensures Numbered(records) ==> Numbered(Append(records, line, form))
  {
    if Accepts(line, form) {
      assert Append(records, line, form)[..|records|] == records;
    }
  }

  /** The forms a sequence of saves accepts, in order. */
  function AcceptedForms(line: ProductLine, forms: seq<Form>): seq<Form>
    decreases |forms|
  {
    if forms == [] then []
    else
      var last := forms[|forms| - 1];
      AcceptedForms(line, forms[..|forms| - 1]) + (if Accepts(line, last) then [last] else [])
  }

  /** The store after a sequence of saves, starting from an empty store. */
  function SaveAll(line: ProductLine, forms: seq<Form>): seq<Record>
    decreases |forms|
  {
    if forms == [] then []
    else Append(SaveAll(line, forms[..|forms| - 1]), line, forms[|forms| - 1])
  }

  /** Starting from an empty store, N accepted saves give the records
      numbered 1..N, in the order of the saves, each with the fields of its
      form; refused saves leave no trace. */
  lemma {:induction false} SaveAllNumbersInOrder(line: ProductLine, forms: seq<Form>)
    ensures |SaveAll(line, forms)| == |AcceptedForms(line, forms)|
    ensures forall i | 0 <= i < |SaveAll(line, forms)| ::
              SaveAll(line, forms)[i] == Record(i + 1, NewFields(line, AcceptedForms(line, forms)[i]))
    decreases |forms|
  {
    if forms != [] {
      SaveAllNumbersInOrder(line, forms[..|forms| - 1]);
    }
  }

  /** One product line's store: the content of its JSON file, held in
      memory. */
  class Store {
    const line: ProductLine
    var records: seq<Record>

    /** Every store is numbered 1..N when it was built by saves alone. */
    ghost predicate Valid()
      reads this
    {
      Numbered(records)
    }

    /** An empty store (no file yet). */
    constructor (line: ProductLine)
      ensures this.line == line && records == [] && Valid()
    {
      this.line := line;
      records := [];
    }

    /** The save handler: `records.append(new_record)` once the guard lets
        the form through. */
    method Save(form: Form) returns (saved: bool)
      modifies this
      ensures saved == Accepts(line, form)
      ensures records == Append(old(records), line, form)
      ensures old(Valid()) ==> Valid()
    {
      if !Accepts(line, form) {
        return false;
      }
      var newRecord := Record(|records| + 1, NewFields(line, form));
      records := records + [newRecord];
      saved := true;
      AppendSpec(old(records), line, form);
    }
  }
}
