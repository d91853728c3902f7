/** A single javadoc comment tag (`@param x the x`, `@inheritDoc Base.run`, ...). */
module Tags {
  import opened Wrappers

  /** A tag as stored in a comment's tag list; all three fields are always strings. */
  datatype CommentTag = CommentTag(tagName: string, paramName: string, text: string)

  /** JavaScript's `a || b` for an optional string: `undefined` and `""` are falsy. */
  function OrElse(a: Option<string>, b: string): (r: string)
    ensures a.Some? && a.value != "" ==> r == a.value
    ensures a.None? || a.value == "" ==> r == b
  {
    if a.Some? && a.value != "" then a.value else b
  }

  /**
   * `new CommentTag(tagName, paramName?, text?)`: the name is stored as given,
   * an omitted parameter name or text becomes the empty string.
   */
  function NewTag(tagName: string, paramName: Option<string>, text: Option<string>): (t: CommentTag)
    ensures t.tagName == tagName
    ensures paramName.Some? ==> t.paramName == paramName.value
    ensures paramName.None? ==> t.paramName == ""
    ensures text.Some? ==> t.text == text.value
    ensures text.None? ==> t.text == ""
  {
    CommentTag(tagName, OrElse(paramName, ""), OrElse(text, ""))
  }

  /** Rebuilding a tag from its own fields gives back the same tag. */
  lemma NewTagFromFields(t: CommentTag)
    ensures NewTag(t.tagName, Some(t.paramName), Some(t.text)) == t
  {
  }

  /** Omitting an argument and passing the empty string construct the same tag. */
  lemma NewTagOmittedIsEmpty(tagName: string, paramName: Option<string>, text: Option<string>)
    ensures NewTag(tagName, None, text) == NewTag(tagName, Some(""), text)
    ensures NewTag(tagName, paramName, None) == NewTag(tagName, paramName, Some(""))
  {
  }
}
