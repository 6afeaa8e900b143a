/** One entry of the cache: an immutable key, a replaceable value and the two
  * links that place it in the recency list.  The links are plain fields; every
  * change of structure is made by the list through the setters below. */
module Nodes {

  class Node<K, V> {
    const key: K
    var value: V
    var previous: Node?<K, V>
    var next: Node?<K, V>

    /** A fresh node carries the given key and value and is linked to nothing. */
    constructor (key: K, value: V)
      ensures this.key == key && this.value == value
      ensures previous == null && next == null
    {
      this.key := key;
      this.value := value;
      previous := null;
      next := null;
    }

    function GetKey(): K
    {
      key
    }

    function GetValue(): V
      reads this
    {
      value
    }

    function GetPrevious(): Node?<K, V>
      reads this
    {
      previous
    }

    function GetNext(): Node?<K, V>
      reads this
    {
      next
    }

    /** Replaces the value; the links stay as they were (the key cannot change). */
    method SetValue(value: V)
      modifies `value
      ensures this.value == value
    {
      this.value := value;
    }

    /** Relinks the predecessor; value and successor stay as they were. */
    method SetPrevious(previous: Node?<K, V>)
      modifies `previous
      ensures this.previous == previous
    {
      this.previous := previous;
    }

    /** Relinks the successor; value and predecessor stay as they were. */
    method SetNext(next: Node?<K, V>)
      modifies `next
      ensures this.next == next
    {
      this.next := next;
    }
  }
}
