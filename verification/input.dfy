/**
 * Reading the input documents (`parse_input_documents`): the decoded input must be a non-empty
 * array whose first element is an object holding the document key, and every element yields a
 * document of its id and its text.
 */
module Input {
  import opened Basics
  import opened JsonValue
  import opened Runs

  /** Why the input is refused; the index is that of the offending element. */
  datatype InputError =
    | NotSized                      // `len` of a number, boolean or null
    | Blank                         // an empty string, array or object
    | NotArrayOfObjects             // not an array, or its first element not an object
    | DocKeyMissing                 // the document key is not in the first element
    | NotSubscriptable(index: nat)  // an element that is not an object
    | KeyMissing(index: nat, key: string)

  /** An element from which a document can be read. */
  predicate Readable(elem: Json, keyDoc: string, keyId: string) {
    elem.JObj? && keyId in elem.fields && keyDoc in elem.fields
  }

  /** Input from which every document can be read. */
  predicate ValidInput(input: Json, keyDoc: string, keyId: string) {
    input.JArr? && |input.elems| > 0 && forall i :: 0 <= i < |input.elems| ==> Readable(input.elems[i], keyDoc, keyId)
  }

  /** The document of the `index`-th element: the id is looked up before the text. */
  function ReadDocument(elem: Json, index: nat, keyDoc: string, keyId: string): (r: Result<Document, InputError>)
    ensures r.Ok? <==> Readable(elem, keyDoc, keyId)
    ensures r.Ok? ==> r.value == Document(elem.fields[keyId], elem.fields[keyDoc])
    ensures r.Err? ==> (r.error.NotSubscriptable? || r.error.KeyMissing?) && r.error.index == index
  {
    if !elem.JObj? then Err(NotSubscriptable(index))
    else if keyId !in elem.fields then Err(KeyMissing(index, keyId))
    else if keyDoc !in elem.fields then Err(KeyMissing(index, keyDoc))
    else Ok(Document(elem.fields[keyId], elem.fields[keyDoc]))
  }

  /**
   * The loop over the elements: it fails at the first element that cannot be read, with that
   * element's error, and otherwise maps every element to its document, in order.
   */
  method ReadDocuments(elems: seq<Json>, keyDoc: string, keyId: string) returns (r: Result<seq<Document>, InputError>)
    ensures r.Ok? <==> forall i :: 0 <= i < |elems| ==> Readable(elems[i], keyDoc, keyId)
    ensures r.Ok? ==> |r.value| == |elems|
    ensures r.Ok? ==> forall i :: 0 <= i < |elems| ==>
      r.value[i] == Document(elems[i].fields[keyId], elems[i].fields[keyDoc])
    ensures r.Err? ==>
      exists k :: 0 <= k < |elems| && ReadDocument(elems[k], k, keyDoc, keyId) == Err(r.error) &&
        (forall i :: 0 <= i < k ==> Readable(elems[i], keyDoc, keyId))
  {
    var docs: seq<Document> := [];
    var i := 0;
    while i < |elems|
      invariant 0 <= i <= |elems|
      invariant |docs| == i
      invariant forall j :: 0 <= j < i ==> Readable(elems[j], keyDoc, keyId)
      invariant forall j :: 0 <= j < i ==> docs[j] == Document(elems[j].fields[keyId], elems[j].fields[keyDoc])
    {
      var d := ReadDocument(elems[i], i, keyDoc, keyId);
      if d.Err? {
        return Err(d.error);
      }
      docs := docs + [d.value];
      i := i + 1;
    }
    return Ok(docs);
  }

  /**
   * `parse_input_documents`: the checks on the whole input, in the code's order, then the
   * documents of the elements. It succeeds exactly on valid input, and then yields one
   * document per element with the element's id and text.
   */
  method ParseInputDocuments(input: Json, keyDoc: string, keyId: string) returns (r: Result<seq<Document>, InputError>)
    ensures r.Ok? <==> ValidInput(input, keyDoc, keyId)
    ensures r.Ok? ==> |r.value| == |input.elems| && forall i :: 0 <= i < |input.elems| ==>
      r.value[i] == Document(input.elems[i].fields[keyId], input.elems[i].fields[keyDoc])
    ensures Len(input).None? ==> r == Err(NotSized)
    ensures Len(input) == Some(0) ==> r == Err(Blank)
    ensures Len(input).Some? && Truthy(input) && !input.JArr? ==> r == Err(NotArrayOfObjects)
    ensures input.JArr? && |input.elems| > 0 && !input.elems[0].JObj? ==> r == Err(NotArrayOfObjects)
    ensures input.JArr? && |input.elems| > 0 && input.elems[0].JObj? && keyDoc !in input.elems[0].fields ==>
      r == Err(DocKeyMissing)
  {
    var n := Len(input);
    if n.None? {
      return Err(NotSized);
    }
    if n.value == 0 {
      return Err(Blank);
    }
    if !input.JArr? || !input.elems[0].JObj? {
      return Err(NotArrayOfObjects);
    }
    if keyDoc !in input.elems[0].fields {
      return Err(DocKeyMissing);
    }
    r := ReadDocuments(input.elems, keyDoc, keyId);
  }
}
