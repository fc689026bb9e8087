/**
 * The JavaScript values the two scripts work on: the JSON objects the server
 * returns for masked e-mail addresses, whose properties are strings or null,
 * and the Option/Result wrappers the rest of the model uses for `undefined`
 * and for a thrown exception.
 */
module JsValues {

  datatype Option<T> = None | Some(value: T)

  datatype Result<T, E> = Ok(value: T) | Err(error: E)

  /** A property value of a masked e-mail as the server sends it: a string or null. */
  datatype Value = Null | Str(s: string)

  /**
   * A masked-e-mail object (id, email, createdBy, createdAt, description,
   * forDomain, url, state, lastMessageAt, ...). A property name that is not
   * a key reads as `undefined`.
   */
  type MaskedEmail = map<string, Value>

  /** `obj[key]`, with `None` standing for `undefined`. */
  function Prop(obj: map<string, Value>, key: string): Option<Value>
  {
    if key in obj then Some(obj[key]) else None
  }

  /** `obj.id === id` for a string `id`. */
  predicate HasId(obj: MaskedEmail, id: string)
  {
    Prop(obj, "id") == Some(Str(id))
  }
}
