/** C strings as byte sequences: the NUL-terminated keys and values the
    dictionary interface passes around, the copy into a reusable buffer
    (SCOPY) and the ASCII case fold applied to keys. */
module CStrings {

  type Byte = b: int | 0 <= b < 256
  type Bytes = seq<Byte>

  const NUL: Byte := 0

  datatype Option<T> = None | Some(value: T)

  /** A C string holds no NUL byte; its terminator is not part of it. */
  predicate IsCString(s: Bytes)
  {
    forall i :: 0 <= i < |s| ==> s[i] != NUL
  }

  /** The names and values the dictionary interface passes in: what strlen
      measures. */
  type CString = s: Bytes | IsCString(s)

  /** The stored form of a C string with its terminator kept. */
  function WithNul(s: Bytes): (r: Bytes)
    ensures |r| == |s| + 1 && r[..|s|] == s && r[|s|] == NUL
  {
    s + [NUL]
  }

  /** What SCOPY leaves in its buffer: at most all the bytes of `data`,
      stopping before the first NUL byte. */
  function UpToNul(data: Bytes): (r: Bytes)
    ensures IsCString(r)
    ensures |r| <= |data| && r == data[..|r|]
    ensures |r| < |data| ==> data[|r|] == NUL
  {
    if data == [] || data[0] == NUL then [] else [data[0]] + UpToNul(data[1..])
  }

  /** Copying a C string, with or without its terminator, gives it back. */
  lemma {:induction false} UpToNulOfCString(c: Bytes)
    requires IsCString(c)
    ensures UpToNul(c) == c
    ensures UpToNul(WithNul(c)) == c
  {
    if c != [] {
      assert c[0] != NUL;
      UpToNulOfCString(c[1..]);
      assert WithNul(c)[1..] == WithNul(c[1..]);
    }
  }

  /** The terminated form of a key never equals the plain form of a C string,
      so the two encodings of the dictionary never collide. */
  lemma WithNulIsNotCString(a: Bytes, b: Bytes)
    requires IsCString(b)
    ensures WithNul(a) != b
  {
  }

  predicate IsUpper(b: Byte)
  {
    'A' as int <= b <= 'Z' as int
  }

  /** Folding one byte: ASCII upper case to lower case, as lowercase() does
      in the C locale. */
  function LowerByte(b: Byte): (r: Byte)
    ensures r != NUL <==> b != NUL
    ensures !IsUpper(r)
    ensures !IsUpper(b) ==> r == b
  {
    if IsUpper(b) then b + 32 else b
  }

  /** lowercase(): fold a key in place, keeping its length. */
  function Lower(s: Bytes): (r: Bytes)
    ensures |r| == |s|
    ensures forall i :: 0 <= i < |r| ==> !IsUpper(r[i])
    ensures IsCString(s) ==> IsCString(r)
  {
    seq(|s|, i requires 0 <= i < |s| => LowerByte(s[i]))
  }

  /** Folding twice is folding once. */
  lemma LowerIdempotent(s: Bytes)
    ensures Lower(Lower(s)) == Lower(s)
  {
    assert forall i :: 0 <= i < |s| ==> Lower(Lower(s))[i] == Lower(s)[i];
  }
}
