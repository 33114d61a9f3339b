/** The storage under the settings and the scanner: the growing list of settings and the string buffer. */
module ConfigStorage {

  const CHUNK: nat := 16
  const BLOCK: nat := 64

  function RoundUp(n: nat, unit: nat): (r: nat)
    requires unit == CHUNK || unit == BLOCK
    ensures n <= r < n + unit && r % unit == 0
  {
    if unit == CHUNK then (n + 15) / 16 * 16 else (n + 63) / 64 * 64
  }

  /** `realloc`: what fits is kept. */
  method Reallocate<T(0)>(a: array<T>, size: nat) returns (b: array<T>)
    ensures fresh(b) && b.Length == size
    ensures forall i | 0 <= i < size && i < a.Length :: b[i] == a[i]
  {
    b := new T[size];
    var i := 0;
    while i < size && i < a.Length
      modifies b
      invariant i <= size && i <= a.Length
      invariant forall j | 0 <= j < i :: b[j] == a[j]
      invariant forall j | 0 <= j < a.Length :: a[j] == old(a[j])
    {
      b[i] := a[i];
      i := i + 1;
    }
  }

  // ----- the list of settings of an aggregate -----

  datatype Change = AddLast(id: nat) | RemoveAt(k: nat)

  /** What a run of changes makes of a list; removing where there is nothing does nothing. */
  function Applied(list: seq<nat>, changes: seq<Change>): seq<nat>
    decreases changes
  {
    if changes == [] then list
    else
      match changes[0]
      case AddLast(id) => Applied(list + [id], changes[1..])
      case RemoveAt(k) => Applied(if k < |list| then list[..k] + list[k + 1..] else list, changes[1..])
  }

  class SettingList {
    var elements: array<nat>
    var length: nat

    /** The capacity is at least the length rounded up to a chunk. */
    ghost predicate Valid()
      reads this
    {
      RoundUp(length, CHUNK) <= elements.Length
    }

    function Contents(): (list: seq<nat>)
      requires Valid()
      reads this, elements
      ensures |list| == length
    {
      elements[..length]
    }

    constructor ()
      ensures Valid() && Contents() == [] && fresh(elements)
    {
      elements := new nat[0];
      length := 0;
    }

    /** `__config_list_add` */
    method Add(id: nat)
      requires Valid()
      modifies this, elements
      ensures Valid() && (elements == old(elements) || fresh(elements))
      ensures Contents() == old(Contents()) + [id]
    {
      if length % CHUNK == 0 {
        elements := Reallocate(elements, length + CHUNK);
      }
      elements[length] := id;
      length := length + 1;
    }

    /** `__config_list_remove`; the list never shrinks its storage. */
    method Remove(k: nat) returns (removed: nat)
      requires Valid() && k < length
      modifies this`length, elements
      ensures Valid() && removed == old(Contents())[k]
      ensures Contents() == old(Contents())[..k] + old(Contents())[k + 1..]
    {
      removed := elements[k];
      ghost var was := Contents();
      var i := k;
      while i < length - 1
        modifies elements
        invariant k <= i <= length - 1
        invariant forall j | 0 <= j < k :: elements[j] == was[j]
        invariant forall j | k < j <= i :: elements[j - 1] == was[j]
        invariant forall j | i <= j < length :: elements[j] == was[j]
      {
        elements[i] := elements[i + 1];
        i := i + 1;
      }
      length := length - 1;
    }

    /** Through any mix of adds and removes every write is in bounds and nothing else is lost. */
    method Replay(changes: seq<Change>)
      requires Valid()
      modifies this, elements
      ensures Valid() && Contents() == Applied(old(Contents()), changes)
    {
      var i := 0;
      ghost var whole := Applied(Contents(), changes);
      ghost var first := elements;
      assert changes[0..] == changes;
      while i < |changes|
        invariant i <= |changes| && Valid()
        invariant elements == first || fresh(elements)
        invariant Applied(Contents(), changes[i..]) == whole
      {
        assert changes[i..][1..] == changes[i + 1..];
        match changes[i] {
          case AddLast(id) => Add(id);
          case RemoveAt(k) =>
            if k < length {
              var removed := Remove(k);
            }
        }
        i := i + 1;
      }
    }
  }

  // ----- the string buffer -----

  const NUL: char := 0 as char

  class StringBuffer {
    var chars: array<char>
    var length: nat
    var capacity: nat

    /** The text and its NUL fit in whole blocks; before the first append there is no storage at all. */
    ghost predicate Valid()
      reads this, chars
    {
      && capacity == chars.Length
      && capacity % BLOCK == 0
      && (if capacity == 0 then length == 0 else length < capacity && chars[length] == NUL)
    }

    function Contents(): (text: string)
      requires Valid()
      reads this, chars
      ensures |text| == length
    {
      chars[..length]
    }

    constructor ()
      ensures Valid() && Contents() == "" && fresh(chars)
    {
      chars := new char[0];
      length := 0;
      capacity := 0;
    }

    /** `strbuf_append` */
    method Append(text: string)
      requires Valid()
      modifies this, chars
      ensures Valid() && (chars == old(chars) || fresh(chars))
      ensures Contents() == old(Contents()) + text
      ensures capacity == if old(capacity) > old(length) + |text| then old(capacity)
                          else RoundUp(old(length) + |text| + 1, BLOCK)
    {
      var newLength := length + |text| + 1;
      if newLength > capacity {
        capacity := RoundUp(newLength, BLOCK);
        chars := Reallocate(chars, capacity);
      }
      ghost var before := chars[..length];
      var i := 0;
      while i < |text|
        modifies chars
        invariant i <= |text|
        invariant chars[..length] == before
        invariant forall j | 0 <= j < i :: chars[length + j] == text[j]
      {
        chars[length + i] := text[i];
        i := i + 1;
      }
      chars[length + i] := NUL;
      length := length + |text|;
      assert chars[..length] == before + text;
    }

    /** `strbuf_release` gives the text away and starts again without storage. */
    method Release() returns (text: string)
      requires Valid()
      modifies this
      ensures Valid() && fresh(chars)
      ensures text == old(Contents()) && Contents() == ""
    {
      text := chars[..length];
      chars := new char[0];
      length := 0;
      capacity := 0;
    }
  }
}
