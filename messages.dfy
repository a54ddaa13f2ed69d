/** The stored birthday message, as the backups and the message store hold it. */
module Messages {
  import opened Wrappers

  /** A JSON property that holds a string: absent (`undefined`), `null`, or a string. */
  datatype Field = Missing | Null | Str(text: string)

  /** JavaScript truthiness of such a property: only a non-empty string is truthy. */
  predicate Truthy(f: Field) {
    f.Str? && f.text != []
  }

  /** `{name, message, image?, imageUrl?, id?, timestamp, hasImage?, messageIndex?}`.
      `image` is an inline base64 data URL, `imageUrl` a reference to a stored
      image; `timestamp` is the already parsed time in milliseconds since the epoch. */
  datatype Message = Message(
    name: string,
    message: string,
    image: Field,
    imageUrl: Field,
    id: Field,
    timestamp: int,
    hasImage: Option<bool>,
    messageIndex: Option<int>)
}
