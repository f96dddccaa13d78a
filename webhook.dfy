/**
  The webhook endpoint that receives a Tally form submission and stores its six answers
  as one row of the `formulario` table. The data store is not modelled: the handler is
  given the outcome of its insert as an input, and returns the response it writes
  together with the row it asked the store to insert.
 */
module TallyWebhook {
  import opened Optional
  import opened FieldLookup

  /** The request body, in the shapes the payload check tells apart. */
  datatype Payload<V> =
    | Falsy                             // no body, or a falsy one (`null`, `""`, `0`, `false`)
    | DataFalsy                         // a body whose `data` is absent or falsy
    | FieldsNotArray                    // a `data` whose `fields` is absent or not an array
    | FieldsArray(fields: seq<Item<V>>) // a `data.fields` array

  /** A row for the `formulario` table: column name to value, `None` being the `null` of an unanswered question. */
  type Row<V> = map<string, Option<V>>

  /** What awaiting the insert gives: the stored rows, an error result, or an exception. */
  datatype InsertOutcome<D> =
    | Inserted(data: D)
    | InsertError(message: string)
    | Raised(message: string)

  /** The JSON bodies the handler writes. */
  datatype Body<D> =
    | Error(error: string, message: string)
    | Failure(error: string, details: string)
    | Success(message: string, data: D)

  datatype Response<D> = Response(status: int, body: Body<D>)

  /**
    One invocation of the handler: either it replies, having inserted `sent` or not, or it
    throws before reaching the insert (a lookup raised a TypeError outside the `try`) and
    writes no response.
   */
  datatype Run<V, D> = Replied(response: Response<D>, sent: Option<Row<V>>) | Threw

  /** The labels of the form's six questions, in the order the handler looks them up. */
  const FormLabels: seq<string> := ["Nombre", "Apellido", "Número celular", "Fecha", "Hora", "Color Favorito"]

  /** The column that stores the answer to each question, position by position. */
  const Columns: seq<string> := ["Nombre", "Apellido", "Numero celular", "Fecha", "Hora", "Color favorito"]

  /** The reply to any method other than POST. */
  function MethodNotAllowed<D>(): Response<D>
  {
    Response(405, Error("Method Not Allowed", "Only POST requests are accepted."))
  }

  /** The reply to a body without a `data.fields` array. */
  function InvalidPayload<D>(): Response<D>
  {
    Response(400, Error("Invalid Payload", "The received data structure is not as expected from Tally."))
  }

  /**
    The six lookups and the row literal: `None` when one of the lookups throws, and otherwise
    a row with exactly the six columns, each holding the answer to its question.
   */
  function ExtractRow<V>(fields: seq<Item<V>>): (r: Option<Row<V>>)
    ensures r.Some? <==> forall l :: l in FormLabels ==> GetFieldValueByLabel(fields, l).Returns?
    ensures r.Some? ==> forall c :: c in r.value <==> c in Columns
  {
    var nombre := GetFieldValueByLabel(fields, "Nombre");
    var apellido := GetFieldValueByLabel(fields, "Apellido");
    var numeroCelular := GetFieldValueByLabel(fields, "Número celular");
    var fecha := GetFieldValueByLabel(fields, "Fecha");
    var hora := GetFieldValueByLabel(fields, "Hora");
    var colorFavorito := GetFieldValueByLabel(fields, "Color Favorito");
    assert "Nombre" in FormLabels && "Apellido" in FormLabels && "Número celular" in FormLabels
      && "Fecha" in FormLabels && "Hora" in FormLabels && "Color Favorito" in FormLabels;
    if nombre.TypeError? || apellido.TypeError? || numeroCelular.TypeError?
      || fecha.TypeError? || hora.TypeError? || colorFavorito.TypeError?
    then None
    else Some(map[
      "Nombre" := nombre.result,
      "Apellido" := apellido.result,
      "Numero celular" := numeroCelular.result,
      "Fecha" := fecha.result,
      "Hora" := hora.result,
      "Color favorito" := colorFavorito.result])
  }

  /** Column `Columns[k]` of the row holds the answer to the question labelled `FormLabels[k]`. */
  lemma RowFollowsColumnTable<V>(fields: seq<Item<V>>, k: nat)
    requires k < |Columns|
    ensures ExtractRow(fields).Some? ==>
      ExtractRow(fields).value[Columns[k]] == GetFieldValueByLabel(fields, FormLabels[k]).result
  {
  }

  /** The response to the outcome of the insert. */
  function InsertResponse<D>(outcome: InsertOutcome<D>): (r: Response<D>)
    ensures r.status == 200 <==> outcome.Inserted?
    ensures outcome.Inserted? ==> r.body == Success("Form data received and inserted successfully!", outcome.data)
    ensures outcome.InsertError? ==> r == Response(500, Failure("Supabase Insertion Failed", outcome.message))
    ensures outcome.Raised? ==> r == Response(500, Error("Internal Server Error", outcome.message))
  {
    match outcome
    case InsertError(message) => Response(500, Failure("Supabase Insertion Failed", message))
    case Inserted(data) => Response(200, Success("Form data received and inserted successfully!", data))
    case Raised(message) => Response(500, Error("Internal Server Error", message))
  }

  /** The handler, for a request with HTTP method `verb` and body `payload`, given the insert's outcome. */
  function Handler<V, D>(verb: string, payload: Payload<V>, outcome: InsertOutcome<D>): (r: Run<V, D>)
    ensures verb != "POST" ==> r == Replied(MethodNotAllowed(), None)
    ensures verb == "POST" && !payload.FieldsArray? ==> r == Replied(InvalidPayload(), None)
    ensures r.Replied? && r.sent.Some? <==>
      verb == "POST" && payload.FieldsArray? && ExtractRow(payload.fields).Some?
    ensures r.Replied? && r.sent.Some? ==> r.sent == ExtractRow(payload.fields) && r.response == InsertResponse(outcome)
    ensures r.Threw? <==> verb == "POST" && payload.FieldsArray? && ExtractRow(payload.fields).None?
  {
    if verb != "POST" then Replied(MethodNotAllowed(), None)
    else match payload
      case FieldsArray(fields) =>
        (match ExtractRow(fields)
         case None => Threw
         case Some(row) => Replied(InsertResponse(outcome), Some(row)))
      case _ => Replied(InvalidPayload(), None)
  }

  /** Every reply carries one of the four statuses 200, 400, 405 and 500. */
  lemma StatusIsOneOfFour<V, D>(verb: string, payload: Payload<V>, outcome: InsertOutcome<D>)
    ensures Handler(verb, payload, outcome).Replied? ==>
      Handler(verb, payload, outcome).response.status in {200, 400, 405, 500}
  {
  }

  /** A reply without an insert is the same whatever the store would have answered. */
  lemma NoInsertNoDependence<V, D>(verb: string, payload: Payload<V>, o1: InsertOutcome<D>, o2: InsertOutcome<D>)
    requires !(Handler(verb, payload, o1).Replied? && Handler(verb, payload, o1).sent.Some?)
    ensures Handler(verb, payload, o1) == Handler(verb, payload, o2)
  {
  }

  /** An insert error never gives 200; a success gives 200 and echoes the rows the store returned. */
  lemma OutcomeDecidesStatus<V, D>(fields: seq<Item<V>>, outcome: InsertOutcome<D>)
    requires ExtractRow(fields).Some?
    ensures Handler("POST", FieldsArray(fields), outcome).Replied?
    ensures Handler("POST", FieldsArray(fields), outcome).response.status == 200 <==> outcome.Inserted?
    ensures outcome.Inserted? ==> Handler("POST", FieldsArray(fields), outcome).response.body.data == outcome.data
    ensures outcome.InsertError? ==> Handler("POST", FieldsArray(fields), outcome).response.body.details == outcome.message
  {
  }

  /**
    A `fields` array of readable elements always yields a row, so a POST of it always
    reaches the insert; a column is `None` exactly when no element carries its question's label.
   */
  lemma {:induction false} ReadableFieldsAlwaysInsert<V>(fields: seq<Item<V>>, k: nat)
    requires Readable(fields)
    requires k < |Columns|
    ensures ExtractRow(fields).Some?
    ensures ExtractRow(fields).value[Columns[k]] == None <==>
      forall j :: 0 <= j < |fields| ==> !HasLabel(fields[j], FormLabels[k])
  {
    forall l | 0 <= l < |FormLabels|
      ensures GetFieldValueByLabel(fields, FormLabels[l]).Returns?
    {
      ReadableItemsNeverThrow(fields, FormLabels[l]);
    }
    RowFollowsColumnTable(fields, k);
    NullExactlyWhenNoMatch(fields, FormLabels[k]);
  }

  /**
    With readable elements and unique labels, the order in which the form sends its fields
    changes neither the row nor the reply.
   */
  lemma PermutedFieldsSameRun<V, D>(verb: string, a: seq<Item<V>>, b: seq<Item<V>>, outcome: InsertOutcome<D>)
    requires multiset(a) == multiset(b)
    requires Readable(a) && UniqueLabels(a)
    ensures ExtractRow(a) == ExtractRow(b)
    ensures Handler(verb, FieldsArray(a), outcome) == Handler(verb, FieldsArray(b), outcome)
  {
    PermutedFieldsGiveSameValue(a, b, "Nombre");
    PermutedFieldsGiveSameValue(a, b, "Apellido");
    PermutedFieldsGiveSameValue(a, b, "Número celular");
    PermutedFieldsGiveSameValue(a, b, "Fecha");
    PermutedFieldsGiveSameValue(a, b, "Hora");
    PermutedFieldsGiveSameValue(a, b, "Color Favorito");
  }

  /** A submission that answers only `Nombre` and `Fecha` is stored with `null` in the other four columns. */
  lemma PartialSubmissionExample<D>(outcome: InsertOutcome<D>)
    ensures Handler("POST", FieldsArray([Field(Some("Nombre"), "Ana"), Field(Some("Fecha"), "2024-01-01")]), outcome)
      == Replied(InsertResponse(outcome), Some(map[
        "Nombre" := Some("Ana"), "Apellido" := None, "Numero celular" := None,
        "Fecha" := Some("2024-01-01"), "Hora" := None, "Color favorito" := None]))
  {
  }

  /** A `null` element that the scan meets before finding a label makes the handler throw, with no reply and no insert. */
  lemma NullElementThrows<V, D>(outcome: InsertOutcome<D>)
    ensures Handler<V, D>("POST", FieldsArray([Nullish]), outcome) == Threw
  {
  }
}
