/**
  DSString: an owned, growable, NUL-terminated character buffer.

  The object holds a possibly null buffer `data`, the number of characters
  `length` and the number of usable slots `capacity`; a non-null buffer has one
  extra slot for the terminator. A string built from "" (or copied from an empty
  string, or moved from) keeps a null buffer, which is why the abstract value is
  read through CStr(), the model of c_str().
*/
module DSStrings {
  import opened CLib
  import opened Options

  /** What CharacterAtPos gives back: the character, or the std::out_of_range it throws. */
  datatype CharAt = Char(c: char) | OutOfRange

  class DSString {
    var data: array?<char>
    var length: nat
    var capacity: nat

    /** The representation invariant: a null buffer goes with length and capacity 0;
        a buffer has capacity + 1 slots, the terminator at `length` and none before. */
    ghost predicate Valid()
      reads this, data
    {
      if data == null then length == 0 && capacity == 0
      else
        && data.Length == capacity + 1
        && length <= capacity
        && data[length] == NUL
        && NoNul(data[..length])
    }

    /** c_str(): never null; the buffer's characters up to its terminator, or ""
        when there is no buffer. */
    function CStr(): (s: seq<char>)
      reads this, data
      requires Valid()
      ensures |s| == length && NoNul(s)
    {
      if data == null then "" else data[..length]
    }

    /** Read as a C string, the buffer stops at index `length`: strlen(c_str())
        is Length(), so CStr is what a reader of the returned pointer sees. */
    lemma CStrIsCString()
      requires Valid() && data != null
      ensures StrLen(data, 0) == length
      ensures data[..StrLen(data, 0)] == CStr()
    {
      assert forall k :: 0 <= k < length ==> data[k] == CStr()[k];
    }

    /** The characters of the range [begin(), end()): from m_data to m_data + m_length. */
    function Elements(): (r: seq<char>)
      reads this, data
      requires Valid()
      ensures |r| == Length() && r == CStr()
    {
      if data == null then [] else data[0..length]
    }

    /** m_data passed on as a `const char*`: null when there is no buffer. */
    function AsCharPtr(): (p: CharPtr)
      reads this, data
      requires Valid()
      ensures p.Valid() && p.Text() == CStr()
      ensures p.Null? <==> data == null
    {
      if data == null then Null else Ptr(CStr())
    }

    /** Length(): the number of characters. */
    function Length(): (n: nat)
      reads this, data
      requires Valid()
      ensures n == |CStr()|
    {
      length
    }

    /** reallocate: grows the buffer to `newCapacity` usable slots, keeping the
        characters and the terminator; never shrinks. A fresh buffer that replaces
        a null one is left unwritten, so the caller must terminate it. */
    method Reallocate(newCapacity: nat)
      requires Valid()
      modifies this
      ensures length == old(length)
      ensures capacity == if newCapacity <= old(capacity) then old(capacity) else newCapacity
      ensures newCapacity <= old(capacity) ==> data == old(data)
      ensures old(capacity) < newCapacity ==> fresh(data) && data.Length == newCapacity + 1
      ensures old(data) != null || newCapacity <= old(capacity) ==> Valid() && CStr() == old(CStr())
    {
      if newCapacity <= capacity {
        return;
      }
      var newData := new char[newCapacity + 1];
      if data != null {
        forall k | 0 <= k < length + 1 {
          newData[k] := data[k];
        }
      }
      data := newData;
      capacity := newCapacity;
    }

    /** copyFrom: the content becomes the first `n` characters of `src`. For n == 0
        the buffer, if any, is kept and only terminated at index 0. */
    method CopyFrom(src: seq<char>, n: nat)
      requires Valid()
      requires n <= |src| && NoNul(src[..n])
      modifies this, data
      ensures Valid() && CStr() == src[..n]
      ensures n == 0 ==> data == old(data) && capacity == old(capacity)
      ensures 0 < n ==> capacity == if n <= old(capacity) then old(capacity) else n
      ensures data == old(data) || fresh(data)
    {
      if n == 0 {
        if data != null {
          data[0] := NUL;
        }
        length := 0;
        return;
      }
      Reallocate(n);
      forall k | 0 <= k < n {
        data[k] := src[k];
      }
      data[n] := NUL;
      length := n;
      assert data[..length] == src[..n];
    }

    /** DSString(): a 15-slot buffer holding "". Every constructor first sets
        m_data, m_length and m_capacity to null, 0 and 0. */
    constructor ()
      ensures Valid() && CStr() == ""
      ensures data != null && fresh(data) && capacity == 15
    {
      data, length, capacity := null, 0, 0;
      new;
      Reallocate(15);
      data[0] := NUL;
    }

    /** DSString(const char*): the text of `str`; a null `str` gives the default
        15-slot buffer, while "" gives no buffer at all. */
    constructor FromCStr(str: CharPtr)
      requires str.Valid()
      ensures Valid() && CStr() == str.Text()
      ensures str.Null? ==> data != null && capacity == 15
      ensures str.Ptr? ==> capacity == |str.text| && (data == null <==> str.text == "")
      ensures data == null || fresh(data)
    {
      data, length, capacity := null, 0, 0;
      new;
      if str.Ptr? {
        // m_length is set to strlen(str) first; copyFrom overwrites it, and reads it
        // only through a non-null buffer, of which there is none yet.
        CopyFrom(str.text, |str.text|);
      } else {
        Reallocate(15);
        data[0] := NUL;
      }
    }

    /** DSString(const DSString&): a copy with a buffer of its own, sized exactly to
        the content; the copy of an empty string has no buffer. */
    constructor Copy(other: DSString)
      requires other.Valid()
      ensures Valid() && CStr() == other.CStr()
      ensures capacity == other.length && (data == null <==> other.length == 0)
      ensures data == null || fresh(data)
    {
      data, length, capacity := null, 0, 0;
      new;
      CopyFrom(other.CStr(), other.length);
    }

    /** DSString(DSString&&): takes over the buffer; `other` is left with no buffer,
        length 0 and capacity 0. */
    constructor Move(other: DSString)
      requires other.Valid()
      modifies other
      ensures Valid() && CStr() == old(other.CStr())
      ensures data == old(other.data) && length == old(other.length) && capacity == old(other.capacity)
      ensures other.Valid() && other.data == null && other.length == 0 && other.capacity == 0
    {
      data, length, capacity := other.data, other.length, other.capacity;
      new;
      other.data, other.length, other.capacity := null, 0, 0;
    }

    /** operator=(const char*): the content becomes the text of `str` ("" for null);
        returns the receiver. */
    method AssignCStr(str: CharPtr) returns (self: DSString)
      requires Valid() && str.Valid()
      modifies this, data
      ensures self == this && Valid() && CStr() == str.Text()
      ensures data == old(data) || fresh(data)
    {
      if str.Ptr? {
        CopyFrom(str.text, |str.text|);
      } else {
        CopyFrom("", 0);
      }
      self := this;
    }

    /** operator=(const DSString&): the content becomes that of `other`, which is
        left as it was; assigning a string to itself changes nothing. Distinct
        strings never share a buffer. */
    method Assign(other: DSString) returns (self: DSString)
      requires Valid() && other.Valid()
      requires other == this || data == null || other.data != data
      modifies this, data
      ensures self == this && Valid() && CStr() == old(other.CStr())
      ensures other == this ==> data == old(data) && length == old(length) && capacity == old(capacity)
      ensures other != this ==> other.Valid() && other.CStr() == old(other.CStr())
      ensures data == old(data) || fresh(data)
    {
      if other != this {
        CopyFrom(other.CStr(), other.length);
      }
      self := this;
    }

    /** operator=(DSString&&): takes over the buffer of `other`, which is left with
        no buffer, length 0 and capacity 0; moving a string to itself changes nothing. */
    method MoveAssign(other: DSString) returns (self: DSString)
      requires Valid() && other.Valid()
      modifies this, other
      ensures self == this && Valid() && other.Valid()
      ensures other == this ==> data == old(data) && length == old(length) && capacity == old(capacity)
      ensures other != this ==> CStr() == old(other.CStr())
      ensures other != this ==> data == old(other.data) && length == old(other.length) && capacity == old(other.capacity)
      ensures other != this ==> other.data == null && other.length == 0 && other.capacity == 0
    {
      if other != this {
        data, length, capacity := other.data, other.length, other.capacity;
        other.data, other.length, other.capacity := null, 0, 0;
      }
      self := this;
    }

    /** operator+=(const char*): appends the text of `str`; a null or empty `str`
        changes nothing. The buffer grows to exactly the new length when it must. */
    method Append(str: CharPtr) returns (self: DSString)
      requires Valid() && str.Valid()
      modifies this, data
      ensures self == this && Valid()
      ensures CStr() == old(CStr()) + str.Text()
      ensures str.Text() == "" ==> data == old(data) && capacity == old(capacity)
      ensures str.Text() != "" ==>
        var newLength := old(length) + |str.text|;
        capacity == if newLength <= old(capacity) then old(capacity) else newLength
      ensures data == old(data) || fresh(data)
    {
      self := this;
      if str.Null? {
        return;
      }
      var len := |str.text|;
      if len == 0 {
        return;
      }
      var newLength := length + len;
      Reallocate(newLength);
      var src := str.text + [NUL];
      // memcpy of the text together with its terminator
      forall k | 0 <= k < len + 1 {
        data[length + k] := src[k];
      }
      assert data[..newLength] == old(CStr()) + str.text;
      length := newLength;
    }

    /** operator+=(const DSString&): appends the content of another string; a string
        with no buffer counts as a null pointer and changes nothing. */
    method AppendString(other: DSString) returns (self: DSString)
      requires Valid() && other.Valid()
      requires other != this
      requires data == null || other.data != data
      modifies this, data
      ensures self == this && Valid() && CStr() == old(CStr()) + old(other.CStr())
      ensures other.Valid() && other.CStr() == old(other.CStr())
      ensures data == old(data) || fresh(data)
    {
      self := Append(other.AsCharPtr());
    }

    /** operator+(const char*): a new string holding this content followed by the
        text of `str`; the receiver is not changed. */
    method Concat(str: CharPtr) returns (r: DSString)
      requires Valid() && str.Valid()
      ensures fresh(r) && r.Valid() && r.CStr() == CStr() + str.Text()
      ensures r.data == null || fresh(r.data)
    {
      r := new DSString.Copy(this);
      var same := r.Append(str);
    }

    /** operator+(const DSString&): a new string holding this content followed by
        that of `other`; neither is changed. */
    method ConcatString(other: DSString) returns (r: DSString)
      requires Valid() && other.Valid()
      ensures fresh(r) && r.Valid() && r.CStr() == CStr() + other.CStr()
      ensures r.data == null || fresh(r.data)
    {
      r := Concat(other.AsCharPtr());
    }

    /** operator==(const char*) as written: strcmp(m_data, str) also runs when
        m_data is null, which dereferences the null pointer (None here). */
    function EqualsAsWritten(str: CharPtr): (r: Option<bool>)
      reads this, data
      requires Valid() && str.Valid()
      ensures r.None? <==> str.Ptr? && data == null
      ensures r.Some? ==> (r.value <==> CStr() == str.Text())
    {
      if str.Null? then Some(length == 0)
      else if data == null then None
      else Some(CStr() == str.text)
    }

    /** operator==(const char*), comparing through c_str(): a null `str` equals
        exactly the empty string, otherwise the texts must be equal. */
    function Equals(str: CharPtr): (b: bool)
      reads this, data
      requires Valid() && str.Valid()
      ensures b <==> CStr() == str.Text()
    {
      if str.Null? then length == 0 else CStr() == str.text
    }

    /** operator==(const DSString&): the contents are equal. */
    function EqualsString(other: DSString): (b: bool)
      reads this, data, other, other.data
      requires Valid() && other.Valid()
      ensures b <==> CStr() == other.CStr()
    {
      Equals(other.AsCharPtr())
    }

    /** operator!=(const char*): exactly the negation of operator==. */
    function NotEquals(str: CharPtr): (b: bool)
      reads this, data
      requires Valid() && str.Valid()
      ensures b <==> CStr() != str.Text()
    {
      !Equals(str)
    }

    /** operator!=(const DSString&): exactly the negation of operator==. */
    function NotEqualsString(other: DSString): (b: bool)
      reads this, data, other, other.data
      requires Valid() && other.Valid()
      ensures b <==> CStr() != other.CStr()
    {
      !EqualsString(other)
    }

    /** CharacterAtPos: the character at `pos`, or out_of_range past the end. */
    function CharacterAtPos(pos: nat): (r: CharAt)
      reads this, data
      requires Valid()
      ensures pos < |CStr()| ==> r == Char(CStr()[pos])
      ensures |CStr()| <= pos ==> r == OutOfRange
    {
      if pos >= length then OutOfRange else Char(data[pos])
    }

    /** Pos: the index of the first occurrence of `sub`, or -1 when there is none,
        when `sub` is null, or when there is no buffer (even for an empty `sub`). */
    function Pos(sub: CharPtr): (r: int)
      reads this, data
      requires Valid() && sub.Valid()
      ensures sub.Null? || data == null ==> r == -1
      ensures sub.Ptr? && data != null ==>
        && (r == -1 <==> forall j :: !OccursAt(CStr(), sub.text, j))
        && (r != -1 ==> 0 <= r && OccursAt(CStr(), sub.text, r))
        && (r != -1 ==> forall j :: 0 <= j < r ==> !OccursAt(CStr(), sub.text, j))
    {
      if sub.Null? || data == null then -1 else FindFrom(CStr(), sub.text, 0)
    }

    /** ToUpper: toupper on every character in place; returns the receiver. */
    method ToUpper() returns (self: DSString)
      requires Valid()
      modifies data
      ensures self == this && Valid() && data == old(data)
      ensures CStr() == MapUpper(old(CStr()))
    {
      self := this;
      if data == null {
        return;
      }
      var i := 0;
      while i < length
        invariant 0 <= i <= length
        invariant forall k :: 0 <= k < i ==> data[k] == ToUpperChar(old(data[k]))
        invariant forall k :: i <= k < data.Length ==> data[k] == old(data[k])
      {
        data[i] := ToUpperChar(data[i]);
        i := i + 1;
      }
    }

    /** ToLower: tolower on every character in place; returns the receiver. */
    method ToLower() returns (self: DSString)
      requires Valid()
      modifies data
      ensures self == this && Valid() && data == old(data)
      ensures CStr() == MapLower(old(CStr()))
    {
      self := this;
      if data == null {
        return;
      }
      var i := 0;
      while i < length
        invariant 0 <= i <= length
        invariant forall k :: 0 <= k < i ==> data[k] == ToLowerChar(old(data[k]))
        invariant forall k :: i <= k < data.Length ==> data[k] == old(data[k])
      {
        data[i] := ToLowerChar(data[i]);
        i := i + 1;
      }
    }

    /** Trim: removes leading and trailing white space in place, keeping the buffer
        and its capacity; returns the receiver. */
    method Trim() returns (self: DSString)
      requires Valid()
      modifies this, data
      ensures self == this && Valid()
      ensures data == old(data) && capacity == old(capacity)
      ensures CStr() == Trimmed(old(CStr()))
    {
      self := this;
      if data == null || length == 0 {
        return;
      }
      ghost var s := CStr();
      var start, end := TrimBounds(data, length);
      if start > 0 || end < length - 1 {
        var newLength := end - start + 1;
        MoveToFront(data, start, newLength);
        TrimmedNoNul(s);
        assert data[..newLength] == Trimmed(s);
        length := newLength;
      } else {
        assert s[start..end + 1] == s;
      }
    }
  }

  /** Trim's two scans over the first `n` characters: `start` is the first
      non-space (or n), `end` the last non-space at or after it (or start - 1),
      so the characters between them are Trimmed(a[..n]). The last index is an
      int: with `start` past every character it stops at start - 1, where the
      C++ size_t arithmetic `end - start + 1` wraps to 0. */
  method TrimBounds(a: array<char>, n: nat) returns (start: nat, end: int)
    requires 1 <= n <= a.Length
    ensures start <= end + 1 <= n
    ensures Trimmed(a[..n]) == a[start..end + 1]
  {
    start := 0;
    end := n - 1;
    while start <= end && IsSpace(a[start])
      invariant 0 <= start <= n
      invariant forall k :: 0 <= k < start ==> IsSpace(a[k])
    {
      start := start + 1;
    }
    while end >= start && IsSpace(a[end])
      invariant start - 1 <= end <= n - 1
      invariant forall k :: end < k < n ==> IsSpace(a[k])
    {
      end := end - 1;
    }
    ghost var s := a[..n];
    assert forall k :: 0 <= k < n ==> s[k] == a[k];
    TrimmedCharacterised(s, start, end + 1);
  }

  /** Trim's memmove(a, a + start, n), skipped when n is 0, and the terminator
      written after the n characters now at the front. */
  method MoveToFront(a: array<char>, start: nat, n: nat)
    requires start + n < a.Length
    modifies a
    ensures a[..n] == old(a[start..start + n])
    ensures a[n] == NUL
  {
    if n > 0 {
      forall k | 0 <= k < n {
        a[k] := a[start + k];
      }
    }
    ghost var moved := a[..n];
    a[n] := NUL;
    assert a[..n] == moved;
  }

  /** The comparison as written faults on every string without a buffer, which is
      what DSString("") builds (FromCStr's ensures): comparing it with "" dereferences
      null, where the intended result is true. */
  lemma EmptyStringComparisonFaults(s: DSString)
    requires s.Valid() && s.data == null
    ensures s.EqualsAsWritten(Ptr("")) == None
    ensures s.Equals(Ptr(""))
  {
  }

  /** Where the comparison as written does not fault, it agrees with Equals. */
  lemma EqualsAsWrittenAgrees(s: DSString, str: CharPtr)
    requires s.Valid() && str.Valid()
    requires s.EqualsAsWritten(str).Some?
    ensures s.EqualsAsWritten(str).value == s.Equals(str)
  {
  }

  /** Pos of an empty pattern is 0 on a string with a buffer and -1 on one without. */
  lemma PosOfEmpty(s: DSString)
    requires s.Valid()
    ensures s.Pos(Ptr("")) == if s.data == null then -1 else 0
  {
    if s.data != null {
      assert OccursAt(s.CStr(), "", 0);
    }
  }
}
