/** The parsed chat export, as values. Every key the converter reads with
    `.get(...)` is modelled, with its Python falsiness made explicit: a missing
    or null value is `None`, a missing list is the empty sequence, a missing or
    null node id is the empty string (both are false in Python), and a node
    given as the empty object `{}` (also false in Python) is `EmptyDict`. */
module Schema {

  datatype Option<T> = None | Some(value: T)

  /** The outcome of a loop that the source runs until it stops by itself:
      either it returns `value`, or it never returns. */
  datatype Run<T> = Returns(value: T) | RunsForever

  /** A message fragment: its `type` tag and its `content`, either of which may
      be missing or null. */
  datatype Fragment = Fragment(tag: Option<string>, content: Option<string>)

  /** A message: its `fragments` list (missing means empty). */
  datatype Message = Message(fragments: seq<Fragment>)

  /** A node of the conversation tree: the ids of its `children`, in order, and
      its optional `message`. */
  datatype Node = Node(children: seq<string>, message: Option<Message>)

  /** A value of the node-id to node `mapping`: a node, or `{}`. */
  datatype Entry = EmptyDict | NodeDict(node: Node)

  /** One conversation of the export: its `title` and its `mapping`. */
  datatype Conversation = Conversation(title: Option<string>, mapping: map<string, Entry>)
}
