/** The records the auto-moderation handler reads and produces. */
module Types {

  /** An optional value; `None` stands for JavaScript's `null` or `undefined`. */
  datatype Option<+T> = None | Some(value: T)

  /** The fields of an auto-moderation action execution event that the handler reads.
      Optional fields may be missing (`None`) or present but empty (`Some("")`). */
  datatype Event = Event(
    userId: string,
    channelId: Option<string>,
    matchedKeyword: Option<string>,
    matchedContent: Option<string>,
    content: Option<string>
  )

  /** The message the handler posts: target channel, rendered text and the
      users whose mentions may notify. */
  datatype Response = Response(channel: string, text: string, allowedUsers: seq<string>)

  /** JavaScript truthiness of an optional string: present and non-empty. */
  predicate Truthy(o: Option<string>) {
    o.Some? && o.value != []
  }
}
