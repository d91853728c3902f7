/** The documentation attached to one reflection. */
module Comments {
  import opened Wrappers
  import opened Tags

  /** Short summary, full description and the ordered list of tags. */
  datatype Comment = Comment(shortText: string, text: string, tags: seq<CommentTag>)

  /** `comment.getTag(tagName)`: the first tag carrying that name, if any. */
  function GetTag(tags: seq<CommentTag>, tagName: string): (r: Option<CommentTag>)
    ensures r.None? <==> forall k :: 0 <= k < |tags| ==> tags[k].tagName != tagName
    ensures r.Some? ==>
      exists k :: 0 <= k < |tags| && tags[k] == r.value && r.value.tagName == tagName
        && forall j :: 0 <= j < k ==> tags[j].tagName != tagName
  {
    if tags == [] then None
    else if tags[0].tagName == tagName then Some(tags[0])
    else
      var r := GetTag(tags[1..], tagName);
      assert forall k :: 1 <= k < |tags| ==> tags[k] == tags[1..][k - 1];
      r
  }
}
