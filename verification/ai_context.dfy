/** The pure parts of the tutor's calls to the language model, namely turning the fetched
    documents into one context string, the text used when a completion
    comes back without content, and the short-answer gate of the answer
    evaluator. The database query and the model calls themselves are
    parameters: their results are passed in. */
module AiContext {
  import opened Prelude
  import opened Strings

  /** A JSON field as a template literal sees it: absent (`undefined`),
      `null`, or a string. */
  datatype Field = Missing | Null | Text(value: string)

  /** The `metadata` column; `type` matters only when it is a string, while
      `source` is printed and so keeps `null` apart from a missing field. */
  datatype Metadata = Metadata(docType: Option<string>, source: Field)

  /** A row of the `documents` table, as selected (`content, metadata`). */
  datatype Document = Document(content: Option<string>, metadata: Option<Metadata>)

  /** What the query returned: whether it reported an error, and its rows
      (`data` may be `null`). */
  datatype Fetched = Fetched(failed: bool, data: Option<seq<Document>>)

  /** The query's `.limit(10)`. */
  const Limit := 10

  const NoMaterial := "No hay material cargado aún."

  const PdfReference := "pdf_reference"

  /** What `join('\n\n')` puts between pieces. */
  const Separator := "\n\n"

  const ReferenceOpen := "[ARCHIVO CARGADO: "

  const ReferenceClose := ". El alumno lo ha subido a Supabase para su evaluación.]"

  // ---------------------------------------------------------------------
  // The query

  /** The rows the query returns from a table listed newest first: the
      first ten, or all of them when there are fewer. */
  function Latest(table: seq<Document>): (r: seq<Document>)
    ensures |r| <= Limit && |r| <= |table|
    ensures |table| >= Limit ==> |r| == Limit
    ensures |table| < Limit ==> r == table
    ensures forall k :: 0 <= k < |r| ==> r[k] == table[k]
  {
    if |table| < Limit then table else table[..Limit]
  }

  /** A successful query over a newest-first table: it reports no error
      and returns the newest rows, at most ten, in table order. */
  function Query(table: seq<Document>): (f: Fetched)
    ensures !f.failed && f.data.Some?
    ensures |f.data.value| == if |table| < Limit then |table| else Limit
    ensures forall k :: 0 <= k < |f.data.value| ==> f.data.value[k] == table[k]
  {
    Fetched(false, Some(Latest(table)))
  }

  // ---------------------------------------------------------------------
  // The context string

  /** How a template literal renders a field: a missing value prints as
      `undefined` and `null` as `null`. */
  function Rendered(v: Field): string {
    match v
    case Text(s) => s
    case Null => "null"
    case Missing => "undefined"
  }

  /** A row whose `metadata.type` is `pdf_reference`. */
  predicate IsReference(d: Document) {
    d.metadata.Some? && d.metadata.value.docType == Some(PdfReference)
  }

  /** The note that stands for an uploaded file. */
  function ReferenceNote(source: Field): string {
    ReferenceOpen + Rendered(source) + ReferenceClose
  }

  /** One document's piece of the context: the note for a file reference,
      the content otherwise (`join` prints a missing content as nothing). */
  function Piece(d: Document): string {
    if IsReference(d) then ReferenceNote(d.metadata.value.source)
    else d.content.GetOr("")
  }

  function Pieces(docs: seq<Document>): (ps: seq<string>)
    ensures |ps| == |docs|
    ensures forall k :: 0 <= k < |docs| ==> ps[k] == Piece(docs[k])
  {
    seq(|docs|, k requires 0 <= k < |docs| => Piece(docs[k]))
  }

  /** The condition of `getRelevantContext`: no error and a non-empty `data`. */
  predicate HasMaterial(f: Fetched) {
    !f.failed && f.data.Some? && |f.data.value| > 0
  }

  /** `getRelevantContext` after the query: the pieces joined with blank
      lines, or the no-material text. */
  function RelevantContext(f: Fetched): (r: string)
    ensures !HasMaterial(f) ==> r == NoMaterial
    ensures HasMaterial(f) ==> r == Join(Pieces(f.data.value), Separator)
  {
    if HasMaterial(f) then Join(Pieces(f.data.value), Separator) else NoMaterial
  }

  /** The context lists the documents in the order fetched: the `k`-th
      document's piece (the file note for a reference, the content
      otherwise) sits at `Offset`, followed by a blank line, or ends the
      context if it is the last one. */
  lemma ContextLayout(f: Fetched, k: nat)
    requires HasMaterial(f) && k < |f.data.value|
    ensures var c, d, o := RelevantContext(f), f.data.value[k], Offset(Pieces(f.data.value), Separator, k);
      var p := if IsReference(d) then ReferenceNote(d.metadata.value.source) else d.content.GetOr("");
      && o + |p| <= |c|
      && c[o..o + |p|] == p
      && (k + 1 < |f.data.value| ==> o + |p| + 2 <= |c| && c[o + |p|..o + |p| + 2] == Separator)
      && (k + 1 == |f.data.value| ==> o + |p| == |c|)
  {
    JoinLayout(Pieces(f.data.value), Separator, k);
  }

  /** A query over an empty table gives the no-material text; otherwise the
      context is made of the ten newest documents (or all, if fewer). */
  lemma ContextOfTable(table: seq<Document>)
    ensures |table| == 0 ==> RelevantContext(Query(table)) == NoMaterial
    ensures |table| > 0 ==> RelevantContext(Query(table)) == Join(Pieces(Latest(table)), Separator)
    ensures |table| > 0 ==> |Pieces(Latest(table))| == if |table| < Limit then |table| else Limit
  {
  }

  // ---------------------------------------------------------------------
  // Completions

  /** One choice of a completion: `message?.content`, missing when either
      the message or its content is absent. */
  datatype Choice = Choice(content: Option<string>)

  /** `completion.choices[0]?.message?.content`. */
  function FirstContent(choices: seq<Choice>): (c: Option<string>)
    ensures |choices| == 0 ==> c.None?
    ensures |choices| > 0 ==> c == choices[0].content
  {
    if |choices| == 0 then None else choices[0].content
  }

  /** `content || fallback`: the empty string counts as missing. The result
      is never empty when the fallback is not, and it is either the fallback
      or the content itself. */
  function OrElse(content: Option<string>, fallback: string): (r: string)
    ensures fallback != "" ==> r != ""
    ensures r == fallback || (content == Some(r) && r != "")
    ensures content.Some? && content.value != "" ==> r == content.value
  {
    if content.Some? && content.value != "" then content.value else fallback
  }

  const ConnectionError := "Error en la conexión docente."

  /** What `generateAIResponse` returns for a completion. */
  function TeacherReply(choices: seq<Choice>): (r: string)
    ensures r != ""
    ensures r != ConnectionError ==> |choices| > 0 && choices[0].content == Some(r)
  {
    OrElse(FirstContent(choices), ConnectionError)
  }

  /** The reply is the model's text whenever the first choice has some. */
  lemma TeacherReplyUsesContent(choices: seq<Choice>)
    requires |choices| > 0 && choices[0].content.Some? && choices[0].content.value != ""
    ensures TeacherReply(choices) == choices[0].content.value
  {
  }

  /** The text `evaluateResponse` hands to `JSON.parse`: never empty, and
      the empty object `{}` when the completion has no content. */
  function EvaluationPayload(choices: seq<Choice>): (r: string)
    ensures r != ""
    ensures r != "{}" ==> |choices| > 0 && choices[0].content == Some(r)
    ensures FirstContent(choices).None? ==> r == "{}"
    ensures |choices| > 0 && choices[0].content.Some? && choices[0].content.value != "" ==> r == choices[0].content.value
  {
    OrElse(FirstContent(choices), "{}")
  }

  /** Answers shorter than this (in UTF-16 units) are not evaluated. */
  const MinAnswerLength := 15

  /** The result of `evaluateResponse`: `{isMeta: true}`, or the JSON the
      model returned (kept as its text; parsing is not modelled). */
  datatype Evaluation = Meta | Parsed(payload: string)

  /** `evaluateResponse`, with the model's completion as a parameter. */
  function Evaluate(response: string, choices: seq<Choice>): (r: Evaluation)
    ensures r.Meta? <==> Utf16Length(response) < MinAnswerLength
    ensures r.Parsed? ==> r.payload != "" && (FirstContent(choices).None? ==> r.payload == "{}")
    ensures r.Parsed? ==> r.payload == EvaluationPayload(choices)
    ensures r.Parsed? && |choices| > 0 && choices[0].content.Some? && choices[0].content.value != "" ==>
      r.payload == choices[0].content.value
  {
    if Utf16Length(response) < MinAnswerLength then Meta
    else Parsed(EvaluationPayload(choices))
  }

  /** A short answer is answered without the model: whatever the
      completion would have been, the result is the same. */
  lemma ShortAnswerIgnoresModel(response: string, c1: seq<Choice>, c2: seq<Choice>)
    requires Utf16Length(response) < MinAnswerLength
    ensures Evaluate(response, c1) == Evaluate(response, c2) == Meta
  {
  }

  /** Fifteen characters or more are never short, as `length` counts at
      least one unit per character; seven characters or fewer are always
      short, as it counts at most two. */
  lemma ShortAnswerBounds(response: string)
    ensures |response| >= MinAnswerLength ==> Evaluate(response, []).Parsed?
    ensures 2 * |response| < MinAnswerLength ==> Evaluate(response, []) == Meta
  {
  }
}
