/**
 * What the client makes of a response body: the success test `check_res`
 * applied by `login` and `device_list_by_plant`, and the narrowing of a
 * mix-status body to its `obj` member.
 */
module Envelope {
  import opened Wrappers
  import opened Json

  /** The errors the client raises itself (the transport's own are not modelled). */
  datatype ClientError =
    | InvalidData(message: string)   // std::io::Error of kind InvalidData
    | JsonSyntax                     // serde_json::Error from parsing the body
    | HeaderToStr                    // reqwest's ToStrError on a set-cookie value

  const MissingSuccessField := "Missing success field"
  const SucceedFalse := "Succeed false"

  /** The envelope the service sends on success: an object whose `result` is a nonzero i64. */
  predicate IsSuccessEnvelope(v: Json) {
    v.Object? && "result" in v.fields && v.fields["result"].Int?
    && InI64(v.fields["result"].n) && v.fields["result"].n != 0
  }

  /** `check_res`: parse, take `result`, read it as an i64, compare with 0, and give false on any failure. */
  function CheckRes(codec: JsonCodec, body: string): (ok: bool)
    ensures ok <==> codec.parse(body).Some? && IsSuccessEnvelope(codec.parse(body).value)
  {
    codec.parse(body)
      .AndThen((v: Json) => Get(v, "result").AndThen(AsI64))
      .Map((num: int) => if num == 0 then false else true)
      .UnwrapOr(false)
  }

  /** The `result` member of the parsed body, if the body parses to an object that has one. */
  function ResultMember(codec: JsonCodec, body: string): Option<Json> {
    codec.parse(body).AndThen((v: Json) => Get(v, "result"))
  }

  /**
   * Every way the envelope can be wrong makes the test fail, none of them is an
   * error or a crash: no parse, no object or no `result`, a `result` that is not
   * an integer (a float, a string, ...), an integer outside the i64 range, or 0.
   */
  lemma CheckResFailsClosed(codec: JsonCodec, body: string)
    ensures codec.parse(body).None? ==> !CheckRes(codec, body)
    ensures ResultMember(codec, body).None? ==> !CheckRes(codec, body)
    ensures (ResultMember(codec, body).Some? && !ResultMember(codec, body).value.Int?) ==> !CheckRes(codec, body)
    ensures (ResultMember(codec, body).Some? && ResultMember(codec, body).value.Int?
             && !InI64(ResultMember(codec, body).value.n)) ==> !CheckRes(codec, body)
    ensures ResultMember(codec, body) == Some(Int(0)) ==> !CheckRes(codec, body)
    ensures (ResultMember(codec, body).Some? && ResultMember(codec, body).value.Int?
             && InI64(ResultMember(codec, body).value.n) && ResultMember(codec, body).value.n != 0)
            ==> CheckRes(codec, body)
  {
  }

  /** Only `result` matters: two bodies whose `result` members agree are judged alike, whatever else they hold. */
  lemma CheckResOnlyResult(codec: JsonCodec, a: string, b: string, fa: map<string, Json>, fb: map<string, Json>)
    requires codec.parse(a) == Some(Object(fa)) && codec.parse(b) == Some(Object(fb))
    requires ("result" in fa <==> "result" in fb)
    requires "result" in fa ==> fa["result"] == fb["result"]
    ensures CheckRes(codec, a) == CheckRes(codec, b)
  {
  }

  /**
   * The tail of `device_list_by_plant`: the body is handed back unchanged
   * exactly when it passes the success test, otherwise the "Succeed false" error.
   */
  function DeviceListResult(codec: JsonCodec, content: string): (r: Result<string, ClientError>)
    ensures r.Ok? <==> CheckRes(codec, content)
    ensures r.Ok? ==> r.value == content
    ensures r.Err? ==> r.error == InvalidData(SucceedFalse)
  {
    if CheckRes(codec, content) == false then Err(InvalidData(SucceedFalse)) else Ok(content)
  }

  /**
   * The tail of `mix_system_status`: a body that does not parse is an error;
   * otherwise the answer is the serialisation of `v["obj"]`.
   */
  function MixStatusResult(codec: JsonCodec, content: string): (r: Result<string, ClientError>)
    ensures r.Err? <==> codec.parse(content).None?
    ensures r.Err? ==> r.error == JsonSyntax
    ensures r.Ok? ==> r.value == codec.serialize(Index(codec.parse(content).value, "obj"))
  {
    match codec.parse(content)
    case None => Err(JsonSyntax)
    case Some(v) => Ok(codec.serialize(Index(v, "obj")))
  }

  /** An object body yields its `obj` member alone: sibling members never reach the answer. */
  lemma MixStatusIgnoresSiblings(codec: JsonCodec, a: string, b: string, fa: map<string, Json>, fb: map<string, Json>)
    requires codec.parse(a) == Some(Object(fa)) && codec.parse(b) == Some(Object(fb))
    requires "obj" in fa && "obj" in fb && fa["obj"] == fb["obj"]
    ensures MixStatusResult(codec, a) == MixStatusResult(codec, b) == Ok(codec.serialize(fa["obj"]))
  {
  }

  /**
   * A body that parses but has no `obj` member (or is no object at all) is not
   * an error: it yields the serialisation of `Null`, the text "null" for serde_json.
   */
  lemma MixStatusMissingObjIsNull(codec: JsonCodec, content: string)
    requires codec.parse(content).Some?
    requires Get(codec.parse(content).value, "obj").None?
    requires codec.serialize(Null) == "null"
    ensures MixStatusResult(codec, content) == Ok("null")
  {
  }
}
