/** The java.util.ArrayList the traversals of TreeAVL.java append to; they only ever call `add`. */
module AVLLists {
  class ValueList<V> {
    var contents: seq<V>

    /** `new ArrayList<Value>()`: an empty list. */
    constructor ()
      ensures contents == []
    {
      contents := [];
    }

    /** ArrayList.add: append one value at the end. */
    method Add(v: V)
      modifies this
      ensures contents == old(contents) + [v]
    {
      contents := contents + [v];
    }
  }
}
