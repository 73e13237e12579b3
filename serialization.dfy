/**
 * The public entry points: an object becomes JSON text (with the
 * PrivateSetter policy and embedded type names), and that text becomes
 * bytes through UTF-8; decoding runs the same two steps backwards. The
 * JSON converter and the UTF-8 codec are library code whose behaviour is
 * not modelled: each is a pair of functions handed in through an
 * Environment, the fixed collaborators of the static Serialization class.
 */
module Serialization {

  newtype byte = x: int | 0 <= x < 256

  /**
   * The outcome of a call into the JSON layer, which may throw: on
   * deserialisation for malformed text, an unknown type name or a value
   * that does not fit its slot; on serialisation for, say, a
   * self-referencing object graph.
   */
  datatype Result<T> = Success(value: T) | Failure(error: string)

  /** A System.Text.Encoding: GetBytes and GetString over the whole buffer. */
  datatype TextEncoding = TextEncoding(getBytes: string -> seq<byte>, getString: seq<byte> -> string)

  /** Decoding what the encoding produced gives back the text. */
  ghost predicate Lossless(e: TextEncoding) {
    forall s :: e.getString(e.getBytes(s)) == s
  }

  /** JsonConvert.SerializeObject / DeserializeObject under the fixed settings. */
  datatype JsonConverter<!T> = JsonConverter(serializeObject: T -> Result<string>, deserializeObject: string -> Result<T>)

  /** The UTF-8 encoding and the JSON converter, both fixed for every call. */
  datatype Environment<!T> = Environment(utf8: TextEncoding, json: JsonConverter<T>)

  function ToEncodedByteArray(encoding: TextEncoding, source: string): seq<byte> {
    encoding.getBytes(source)
  }

  function FromEncodedByteArrayToStr(encoding: TextEncoding, source: seq<byte>): string {
    encoding.getString(source)
  }

  function ToUTF8ByteArray<T>(env: Environment<T>, source: string): seq<byte> {
    ToEncodedByteArray(env.utf8, source)
  }

  function FromUTF8ByteArrayToStr<T>(env: Environment<T>, source: seq<byte>): string {
    FromEncodedByteArrayToStr(env.utf8, source)
  }

  /** Serialisation fails exactly when the JSON layer throws; otherwise the text is encoded. */
  function BinarySerialize<T>(env: Environment<T>, objectToSerialize: T): (r: Result<seq<byte>>)
    ensures r.Success? <==> env.json.serializeObject(objectToSerialize).Success?
  {
    match env.json.serializeObject(objectToSerialize)
    case Success(text) => Success(ToUTF8ByteArray(env, text))
    case Failure(e) => Failure(e)
  }

  function BinaryDeserialize<T>(env: Environment<T>, serializedBytes: seq<byte>): Result<T> {
    env.json.deserializeObject(FromUTF8ByteArrayToStr(env, serializedBytes))
  }

  /**
   * Both directions go through the same encoding, so the JSON layer
   * receives on decoding exactly the text it produced on encoding.
   */
  lemma TextSurvivesBytes<T>(env: Environment<T>, x: T, text: string)
    requires Lossless(env.utf8)
    requires env.json.serializeObject(x) == Success(text)
    ensures BinarySerialize(env, x).Success?
    ensures FromUTF8ByteArrayToStr(env, BinarySerialize(env, x).value) == text
  {
  }

  /**
   * Whatever round trip the JSON layer achieves on its own text is kept by
   * the byte boundary: the bytes add no loss and no error of their own.
   */
  lemma RoundTrip<T>(env: Environment<T>, x: T, text: string)
    requires Lossless(env.utf8)
    requires env.json.serializeObject(x) == Success(text)
    ensures BinarySerialize(env, x).Success?
    ensures BinaryDeserialize(env, BinarySerialize(env, x).value) == env.json.deserializeObject(text)
  {
    TextSurvivesBytes(env, x, text);
  }
}
