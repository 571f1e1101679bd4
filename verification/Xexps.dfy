/** X-expressions as values: a tag with either a text or a list of children.  An empty
    text and an empty list are the same thing, here always a list. */
module Xexps {
  datatype Xexp =
    | Text(tag: string, text: string)
    | List(tag: string, kids: seq<Xexp>)
  {
    predicate IsEmpty() {
      List? && kids == []
    }

    ghost predicate Valid() {
      match this
      case Text(_, t) => t != ""
      case List(_, ks) => forall k :: k in ks ==> k.Valid()
    }
  }

  function NewText(tag: string, text: string): Xexp {
    if text == "" then List(tag, []) else Text(tag, text)
  }
}
