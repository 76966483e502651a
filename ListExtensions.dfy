/**
 * A growable list (System.Collections.Generic.List<T>, reduced to the members
 * the finder uses) and the Pop extension method.
 */
module ListExtensions {
  import opened Results

  class List<T> {
    var items: seq<T>

    constructor (items: seq<T>)
      ensures this.items == items
    {
      this.items := items;
    }
  }

  /**
   * Removes the last element of the list in place and returns it. On an empty
   * list RemoveAt(-1) throws and the list is left as it was.
   */
  method Pop<T>(list: List<T>) returns (r: Result<T>)
    modifies list
    ensures |old(list.items)| == 0 ==> r == Err(ArgumentOutOfRange) && list.items == old(list.items)
    ensures |old(list.items)| > 0 ==>
              r == Ok(old(list.items)[|old(list.items)| - 1])
              && list.items == old(list.items)[..|old(list.items)| - 1]
              && old(list.items) == list.items + [r.value]
  {
    if |list.items| == 0 {
      return Err(ArgumentOutOfRange);                // RemoveAt(Count - 1) with Count == 0
    }
    var obj := list.items[|list.items| - 1];         // LastOrDefault()
    list.items := list.items[..|list.items| - 1];    // RemoveAt(Count - 1)
    r := Ok(obj);
  }
}
