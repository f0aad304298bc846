/** ESM::FixedString<capacity>: the fixed-size character buffer the ESM
    reader and writer use for record and sub-record tags (NAME, four bytes)
    and for short names (NAME32, NAME64), with the comparisons defined on
    it. */
module EsmCommon {
  import opened CString
  import opened ByteOrder

  /** sizeof(std::uint32_t): the one capacity at which a FixedString is a
      zero-padded four-character tag instead of a NUL-terminated string. */
  const TagSize: nat := UInt32Size

  /** Capacities of the aliases NAME (a tag), NAME32 and NAME64. */
  const NameCapacity: nat := TagSize
  const Name32Capacity: nat := 32
  const Name64Capacity: nat := 64

  function Min(a: nat, b: nat): nat {
    if a < b then a else b
  }

  /** The longest text assign can leave in a buffer of this capacity: a tag
      uses all four bytes, any other capacity keeps the last byte for the
      terminator. */
  function MaxAssignedLength(capacity: nat): (len: nat)
    requires capacity > 0
    ensures len < capacity <==> capacity != TagSize
  {
    if capacity == TagSize then capacity else capacity - 1
  }

  /** The buffer after assign(value), given the buffer before it: an empty
      value clears it; a shorter value is copied in and terminated (a tag is
      zero-padded instead, and a terminated string keeps the bytes after its
      terminator); a longer value is cut to the capacity, and, except for a
      tag, its last byte is overwritten by a terminator. */
  function Assigned(before: seq<Byte>, value: seq<Byte>): (after: seq<Byte>)
    requires |before| > 0
    ensures |after| == |before|
  {
    var capacity := |before|;
    if value == [] then
      Zeros(capacity)
    else if |value| < capacity then
      if capacity == TagSize then value + Zeros(capacity - |value|)
      else value + [NUL] + before[|value| + 1..]
    else if capacity == TagSize then
      value[..capacity]
    else
      value[..capacity - 1] + [NUL]
  }

  /** A terminator right after `p` ends the text there. */
  lemma TextEndsAtNul(p: seq<Byte>, q: seq<Byte>)
    requires |q| > 0 && q[0] == NUL
    ensures Text(p + q) == Text(p)
  {
    TextAppend(p, q);
    TextCons(q);
    if NUL !in p {
      TextWithoutNul(p);
    }
  }

  /** Reading back what assign stored: the text of the value, cut to the
      longest text the capacity allows. */
  lemma AssignedText(before: seq<Byte>, value: seq<Byte>)
    requires |before| > 0
    ensures Text(Assigned(before, value)) == Text(value[..Min(|value|, MaxAssignedLength(|before|))])
  {
    var capacity := |before|;
    var after := Assigned(before, value);
    if value == [] {
      TextIs(after, []);
      TextIs([], []);
    } else if |value| < capacity {
      assert value[..Min(|value|, MaxAssignedLength(capacity))] == value;
      if capacity == TagSize {
        TextEndsAtNul(value, Zeros(capacity - |value|));
      } else {
        assert after == value + ([NUL] + before[|value| + 1..]);
        TextEndsAtNul(value, [NUL] + before[|value| + 1..]);
      }
    } else if capacity != TagSize {
      TextEndsAtNul(value[..capacity - 1], [NUL]);
    }
  }

  /** clear() and assign of an empty value leave the same buffer: every
      byte a terminator, and so no text. */
  lemma AssignEmptyClears(before: seq<Byte>)
    requires |before| > 0
    ensures forall i :: 0 <= i < |before| ==> Assigned(before, [])[i] == NUL
    ensures Text(Assigned(before, [])) == []
  {
    AssignedText(before, []);
  }

  /** A non-empty value shorter than a capacity other than four: copied in,
      followed by one terminator, and the bytes after that terminator are
      left as they were. */
  lemma AssignShortString(before: seq<Byte>, value: seq<Byte>)
    requires |before| != TagSize
    requires 0 < |value| < |before|
    ensures Assigned(before, value)[..|value|] == value
    ensures Assigned(before, value)[|value|] == NUL
    ensures forall i :: |value| < i < |before| ==> Assigned(before, value)[i] == before[i]
    ensures NUL !in value ==> Text(Assigned(before, value)) == value
  {
    AssignedText(before, value);
    if NUL !in value {
      TextWithoutNul(value);
    }
  }

  /** A non-empty value shorter than a four-byte tag: copied in and padded
      with terminators up to the last byte. */
  lemma AssignShortTag(before: seq<Byte>, value: seq<Byte>)
    requires |before| == TagSize
    requires 0 < |value| < TagSize
    ensures Assigned(before, value)[..|value|] == value
    ensures forall i :: |value| <= i < TagSize ==> Assigned(before, value)[i] == NUL
    ensures NUL !in value ==> Text(Assigned(before, value)) == value
  {
    AssignedText(before, value);
    if NUL !in value {
      TextWithoutNul(value);
    }
  }

  /** A value at least as long as the capacity: exactly its first
      `capacity` bytes are stored, except that a non-tag buffer gets a
      terminator in its last byte; its text is then the first
      capacity - 1 bytes (capacity four: all four). */
  lemma AssignLong(before: seq<Byte>, value: seq<Byte>)
    requires 0 < |before| <= |value|
    ensures Assigned(before, value)[..|before| - 1] == value[..|before| - 1]
    ensures Assigned(before, value)[|before| - 1] ==
              if |before| == TagSize then value[|before| - 1] else NUL
    ensures NUL !in value ==> Text(Assigned(before, value)) == value[..MaxAssignedLength(|before|)]
  {
    AssignedText(before, value);
    if NUL !in value {
      TextWithoutNul(value[..MaxAssignedLength(|before|)]);
    }
  }

  /** What operator==(const char*) decides, in its own terms: the buffer
      and the C string agree byte for byte up to and including the buffer's
      first NUL; a buffer without a NUL agrees with the string's first
      `capacity` bytes and the string ends right there. */
  predicate MatchesCString(buf: seq<Byte>, rhs: seq<Byte>): (m: bool)
    ensures m <==> |Text(buf)| < |rhs| && rhs[..|Text(buf)|] == Text(buf) && rhs[|Text(buf)|] == NUL
  {
    var n := |Text(buf)|;
    assert n < |buf| ==> buf[..n + 1] == Text(buf) + [NUL];
    assert n < |rhs| ==> rhs[..n + 1] == rhs[..n] + [rhs[n]];
    if NUL in buf then
      var n := StrNLen(buf, |buf|);
      n < |rhs| && buf[..n + 1] == rhs[..n + 1]
    else
      |buf| < |rhs| && buf == rhs[..|buf|] && rhs[|buf|] == NUL
  }

  /** Comparing with a C string is comparing the two texts. */
  lemma MatchesCStringIffSameText(buf: seq<Byte>, rhs: seq<Byte>)
    requires NUL in rhs
    ensures MatchesCString(buf, rhs) <==> Text(rhs) == Text(buf)
  {
    var n := |Text(buf)|;
    if NUL in buf {
      assert StrNLen(buf, |buf|) == n;
      if MatchesCString(buf, rhs) {
        assert rhs[..n] == buf[..n];
        TextIs(rhs, buf[..n]);
      }
      if Text(rhs) == Text(buf) {
        assert rhs[..n + 1] == rhs[..n] + [rhs[n]];
        assert buf[..n + 1] == buf[..n] + [buf[n]];
      }
    } else {
      TextWithoutNul(buf);
      if MatchesCString(buf, rhs) {
        TextIs(rhs, buf);
      }
    }
  }

  /** The bytes after an array never reach the text strncmp sees in its
      first `n` bytes when the array is terminated or holds `n` bytes or
      more: that text is the array's own text cut to `n` bytes, and so the
      array's whole text when it fits in `n` bytes. */
  lemma TextStaysInArray(rhs: seq<Byte>, beyond: seq<Byte>, n: nat)
    requires n <= |rhs| + |beyond|
    ensures NUL in rhs || n <= |rhs| ==> Text((rhs + beyond)[..n]) == Text(rhs[..Min(n, |rhs|)])
    ensures (NUL in rhs || n <= |rhs|) && |Text(rhs)| <= n ==> Text((rhs + beyond)[..n]) == Text(rhs)
  {
    if n <= |rhs| {
      assert (rhs + beyond)[..n] == rhs[..n];
      if |Text(rhs)| <= n {
        TextOfPrefix(rhs, n);
      }
    } else if NUL in rhs {
      assert rhs[..Min(n, |rhs|)] == rhs;
      TextAppend(rhs, beyond);
      TextOfPrefix(rhs + beyond, n);
    }
  }

  /** operator==(const char (&)[rhsSize]) as written: strnlen bounds the
      array by its size, but strncmp is bounded by the capacity alone, so
      when the array holds no NUL it reads the bytes that follow it in
      memory, modelled here as `beyond`. Whenever the array is terminated
      or holds at least `capacity` bytes, the outcome is text equality. */
  function CharArrayEqualsAsWritten(lhs: seq<Byte>, rhs: seq<Byte>, beyond: seq<Byte>): (eq: bool)
    requires 0 < |lhs| <= |rhs| + |beyond|
    ensures NUL in rhs || |lhs| <= |rhs| ==> (eq <==> Text(rhs) == Text(lhs))
  {
    if StrNLen(rhs, |rhs|) == StrNLen(lhs, |lhs|) then
      assert lhs[..|lhs|] == lhs;
      TextStaysInArray(rhs, beyond, |lhs|);
      StrNCmpEqual(lhs, rhs + beyond, |lhs|)
    else
      false
  }

  /** Exactly when the char-array comparison as written reports equality:
      the texts are equal and, for an unterminated array shorter than the
      buffer, the byte stored after the array is NUL. The defect can
      therefore only turn an equality into an inequality, never the
      reverse, and strncmp reads past the array only when the texts are
      equal. */
  lemma CharArrayAsWrittenExact(lhs: seq<Byte>, rhs: seq<Byte>, beyond: seq<Byte>)
    requires 0 < |lhs| <= |rhs| + |beyond|
    ensures CharArrayEqualsAsWritten(lhs, rhs, beyond) <==>
              Text(rhs) == Text(lhs) && (NUL in rhs || |lhs| <= |rhs| || beyond[0] == NUL)
  {
    if NUL !in rhs && |rhs| < |lhs| {
      TextWithoutNul(rhs);
      if StrNLen(lhs, |lhs|) == |rhs| {
        var k := |lhs| - |rhs|;
        var seen := (rhs + beyond)[..|lhs|];
        assert seen == rhs + beyond[..k];
        TextAppend(rhs, beyond[..k]);
        TextCons(beyond[..k]);
        assert lhs[..|lhs|] == lhs;
      }
    }
  }

  /** A NAME32 holding "ab" against the array {'a', 'b'}: the texts are the
      same, yet the outcome depends on the byte stored after the array. */
  lemma CharArrayReadsPastEnd()
    ensures var lhs: seq<Byte> := [97, 98] + Zeros(Name32Capacity - 2);
            var rhs: seq<Byte> := [97, 98];
            Text(rhs) == Text(lhs)
            && !CharArrayEqualsAsWritten(lhs, rhs, [120] + Zeros(Name32Capacity - 1))
            && CharArrayEqualsAsWritten(lhs, rhs, Zeros(Name32Capacity))
  {
    var lhs: seq<Byte> := [97, 98] + Zeros(Name32Capacity - 2);
    var rhs: seq<Byte> := [97, 98];
    TextWithoutNul(rhs);
    TextIs(lhs, rhs);
    var past: seq<Byte> := rhs + ([120] + Zeros(Name32Capacity - 1));
    TextIs(past[..Name32Capacity], [97, 98, 120]);
    var zeroed: seq<Byte> := rhs + Zeros(Name32Capacity);
    TextIs(zeroed[..Name32Capacity], rhs);
  }

  /** ESM::FixedString<capacity>: `mData`, an array of `capacity` chars. */
  class FixedString {
    /** The template argument, also published as sCapacity. */
    const capacity: nat
    /** mData. */
    const data: array<Byte>

    ghost predicate Valid() {
      0 < capacity && data.Length == capacity
    }

    /** mData is not initialised, so a new buffer holds whatever bytes
        `contents` says. */
    constructor (capacity: nat, contents: seq<Byte>)
      requires 0 < capacity && |contents| == capacity
      ensures Valid() && this.capacity == capacity
      ensures fresh(data) && data[..] == contents
    {
      this.capacity := capacity;
      data := new Byte[capacity](i requires 0 <= i < |contents| => contents[i]);
    }

    /** toStringView(): the bytes before the first NUL, or all `capacity`
        bytes when there is none. */
    function ToStringView(): (view: seq<Byte>)
      requires Valid()
      reads data
      ensures |view| <= capacity && view == data[..|view|]
      ensures NUL !in view
      ensures |view| < capacity ==> data[|view|] == NUL
      ensures view == Text(data[..])
    {
      data[..StrNLen(data[..], capacity)]
    }

    /** toString(): a copy of the same characters. */
    function ToString(): (s: seq<Byte>)
      requires Valid()
      reads data
      ensures s == ToStringView()
    {
      var view := ToStringView();
      seq(|view|, i requires 0 <= i < |view| => view[i])
    }

    /** toInt(): the four bytes read as one std::uint32_t. */
    function ToInt(): (value: UInt32)
      requires Valid() && capacity == TagSize
      reads data
      ensures UInt32Bytes(value) == data[..]
    {
      UInt32Of(data[..])
    }

    /** clear(): memset of the whole buffer to zero. */
    method Clear()
      requires Valid()
      modifies data
      ensures data[..] == Zeros(capacity)
      ensures data[..] == Assigned(old(data[..]), [])
    {
      Memset(data, NUL, capacity);
      assert data[..] == Zeros(capacity);
    }

    /** assign(value). */
    method Assign(value: seq<Byte>)
      requires Valid()
      modifies data
      ensures data[..] == Assigned(old(data[..]), value)
      ensures ToStringView() == Text(value[..Min(|value|, MaxAssignedLength(capacity))])
    {
      ghost var before := data[..];
      AssignedText(before, value);
      if value == [] {
        Clear();
        return;
      }

      if |value| < capacity {
        if capacity == TagSize {
          Memset(data, NUL, capacity);
        }
        Memcpy(data, value, |value|);
        if capacity != TagSize {
          data[|value|] := NUL;
        }
        assert data[..] == Assigned(before, value);
        return;
      }

      Memcpy(data, value, capacity);
      if capacity != TagSize {
        data[capacity - 1] := NUL;
      }
      assert data[..] == Assigned(before, value);
    }

    /** operator=(std::uint32_t): the integer's four bytes copied in. */
    method AssignUInt32(value: UInt32)
      requires Valid() && capacity == TagSize
      modifies data
      ensures data[..] == UInt32Bytes(value)
      ensures ToInt() == value
    {
      Memcpy(data, UInt32Bytes(value), capacity);
      assert data[..] == UInt32Bytes(value);
    }

    /** operator==(const char*): walks both until the first difference or
        the buffer's first NUL; a buffer without NUL matches when the
        string ends right after it. */
    method EqualsCString(rhs: seq<Byte>) returns (eq: bool)
      requires Valid()
      requires NUL in rhs
      ensures eq <==> MatchesCString(data[..], rhs)
      ensures eq <==> Text(rhs) == ToStringView()
    {
      MatchesCStringIffSameText(data[..], rhs);
      ghost var end := |Text(rhs)|;
      for i := 0 to capacity
        invariant i <= end
        invariant forall j :: 0 <= j < i ==> data[j] == rhs[j] && data[j] != NUL
      {
        if data[i] != rhs[i] {
          return false;
        }
        if data[i] == NUL {
          TextIs(data[..], data[..i]);
          TextIs(rhs, data[..i]);
          return true;
        }
      }
      TextWithoutNul(data[..]);
      if rhs[capacity] == NUL {
        TextIs(rhs, data[..]);
      }
      return rhs[capacity] == NUL;
    }

    /** operator==(const std::string&): the C-string comparison applied to
        c_str(), that is the string followed by a terminator. */
    method EqualsString(rhs: seq<Byte>) returns (eq: bool)
      requires Valid()
      ensures eq <==> Text(rhs) == ToStringView()
      ensures NUL !in rhs ==> (eq <==> rhs == ToStringView())
    {
      eq := EqualsCString(rhs + [NUL]);
      TextEndsAtNul(rhs, [NUL]);
      if NUL !in rhs {
        TextWithoutNul(rhs);
      }
    }

    /** operator==(const char (&)[rhsSize]), with strncmp bounded by the
        array's size as well as the capacity, so that it never reads past
        the array. */
    function EqualsCharArray(rhs: seq<Byte>): (eq: bool)
      requires Valid()
      reads data
      ensures eq <==> Text(rhs) == ToStringView()
    {
      var lhs := data[..];
      if StrNLen(rhs, |rhs|) == StrNLen(lhs, capacity) then
        var m := Min(capacity, |rhs|);
        TextOfPrefix(lhs, m);
        TextOfPrefix(rhs, m);
        assert lhs[..m] == data[..m];
        StrNCmpEqual(lhs, rhs, m)
      else
        false
    }

    /** operator==(const FixedString<4>&, std::uint32_t). */
    function EqualsUInt32(rhs: UInt32): (eq: bool)
      requires Valid() && capacity == TagSize
      reads data
      ensures eq <==> data[..] == UInt32Bytes(rhs)
    {
      ToInt() == rhs
    }

    /** operator!= against a C string. */
    method NotEqualsCString(rhs: seq<Byte>) returns (ne: bool)
      requires Valid()
      requires NUL in rhs
      ensures ne <==> !MatchesCString(data[..], rhs)
      ensures ne <==> Text(rhs) != ToStringView()
    {
      var eq := EqualsCString(rhs);
      ne := !eq;
    }

    /** operator!= against a std::string. */
    method NotEqualsString(rhs: seq<Byte>) returns (ne: bool)
      requires Valid()
      ensures ne <==> Text(rhs) != ToStringView()
    {
      var eq := EqualsString(rhs);
      ne := !eq;
    }

    /** operator!= against a char array. */
    function NotEqualsCharArray(rhs: seq<Byte>): (ne: bool)
      requires Valid()
      reads data
      ensures ne <==> Text(rhs) != ToStringView()
    {
      !EqualsCharArray(rhs)
    }

    /** operator!= against a std::uint32_t. */
    function NotEqualsUInt32(rhs: UInt32): (ne: bool)
      requires Valid() && capacity == TagSize
      reads data
      ensures ne <==> data[..] != UInt32Bytes(rhs)
    {
      !EqualsUInt32(rhs)
    }
  }

  /** The three aliases in use, whatever their buffers held before: a record
      tag, a short name and an over-long name. */
  method NameAliases(tagBytes: seq<Byte>, nameBytes: seq<Byte>, longBytes: seq<Byte>)
    requires |tagBytes| == NameCapacity && |nameBytes| == Name32Capacity
    requires |longBytes| == Name64Capacity
  {
    var tes3: seq<Byte> := [84, 69, 83, 51];
    TextWithoutNul(tes3);
    var tag := new FixedString(NameCapacity, tagBytes);
    tag.Assign(tes3);
    assert tag.ToStringView() == tes3;
    var same := tag.EqualsString(tes3);
    assert same;

    var name := new FixedString(Name32Capacity, nameBytes);
    name.Assign([97, 98]);
    TextWithoutNul([97, 98]);
    assert name.ToStringView() == [97, 98];

    var long := new FixedString(Name64Capacity, longBytes);
    var letters: seq<Byte> := seq(70, _ => 97);
    long.Assign(letters);
    TextWithoutNul(letters[..Name64Capacity - 1]);
    assert |long.ToStringView()| == Name64Capacity - 1;
  }
}
