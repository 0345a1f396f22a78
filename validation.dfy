/** Name validation, applied when a name is registered: a name is 3 to 64 bytes
    of lowercase ASCII letters, digits, `.`, `-` and `_`. */
module Validation {

  import opened Wrappers
  import opened Errors
  import opened Utf8

  const MinNameLength: nat := 3
  const MaxNameLength: nat := 64

  /** The characters a name may contain: the ten digits, the 26 lowercase letters
      and three punctuation marks. */
  const Digits: string := "0123456789"
  const Lowercase: string := "abcdefghijklmnopqrstuvwxyz"
  const NameAlphabet: string := Digits + Lowercase + ".-_"

  /** A character is invalid unless it is a decimal digit, a lowercase ASCII letter,
      a dot, a dash or an underscore. */
  function InvalidChar(c: char): (r: bool)
    ensures r <==> c !in NameAlphabet
  {
    var isValid := ('0' <= c <= '9') || ('a' <= c <= 'z') || (c == '.' || c == '-' || c == '_');
    AlphabetMembership(c);
    !isValid
  }

  lemma AlphabetMembership(c: char)
    ensures c in NameAlphabet <==> ('0' <= c <= '9') || ('a' <= c <= 'z') || c == '.' || c == '-' || c == '_'
  {
  }

  /** The index of the first invalid character, scanning left to right, if any. */
  function FirstInvalid(name: string): (r: Option<nat>)
    ensures r.Some? ==> r.value < |name| && InvalidChar(name[r.value])
    ensures r.Some? ==> forall j :: 0 <= j < r.value ==> !InvalidChar(name[j])
    ensures r.None? <==> forall j :: 0 <= j < |name| ==> !InvalidChar(name[j])
  {
    if name == [] then None
    else if InvalidChar(name[0]) then Some(0)
    else
      match FirstInvalid(name[1..])
      case None => None
      case Some(i) => Some(i + 1)
  }

  /** The byte length of a name, as `str::len` reports it. */
  function ByteLength(name: string): (n: nat)
    ensures |name| <= n <= 4 * |name|
    ensures n == |name| <==> forall i :: 0 <= i < |name| ==> IsAscii(name[i])
  {
    AsciiEncoding(name);
    |Encode(name)|
  }

  /** What a valid name is, stated without the order of the checks. */
  predicate IsValidName(name: string) {
    && MinNameLength <= ByteLength(name) <= MaxNameLength
    && forall i :: 0 <= i < |name| ==> name[i] in NameAlphabet
  }

  /** Checks the length first (too short, then too long), and only then scans for the
      first invalid character. */
  function ValidateName(name: string): (r: Outcome)
    ensures r == Pass <==> IsValidName(name)
    ensures r == Fail(NameTooShort(ByteLength(name), MinNameLength)) <==> ByteLength(name) < MinNameLength
    ensures r == Fail(NameTooLong(ByteLength(name), MaxNameLength)) <==>
              MinNameLength <= ByteLength(name) && MaxNameLength < ByteLength(name)
    ensures r.Fail? && r.error.InvalidCharacter? <==>
              && MinNameLength <= ByteLength(name) <= MaxNameLength
              && exists i :: 0 <= i < |name| && name[i] !in NameAlphabet
    ensures r.Fail? && r.error.InvalidCharacter? ==>
              exists i :: && 0 <= i < |name|
                          && r.error.c == name[i] && name[i] !in NameAlphabet
                          && forall j :: 0 <= j < i ==> name[j] in NameAlphabet
  {
    var length := ByteLength(name);
    if length < MinNameLength then
      Fail(NameTooShort(length, MinNameLength))
    else if length > MaxNameLength then
      Fail(NameTooLong(length, MaxNameLength))
    else
      match FirstInvalid(name)
      case None => Pass
      case Some(i) => Fail(InvalidCharacter(name[i]))
  }

  /** Conversely: for a name of acceptable length, the first invalid character is the
      one reported. */
  lemma ReportsFirstInvalid(name: string, i: nat)
    requires MinNameLength <= ByteLength(name) <= MaxNameLength
    requires i < |name| && name[i] !in NameAlphabet
    requires forall j :: 0 <= j < i ==> name[j] in NameAlphabet
    ensures ValidateName(name) == Fail(InvalidCharacter(name[i]))
  {
    var k := FirstInvalid(name).value;
    assert !(k < i) && !(i < k);
  }

  /** A valid name is pure ASCII: its byte length is its character count, and its
      bytes, which form its storage key, are its character codes. */
  lemma ValidNameIsAscii(name: string)
    requires ValidateName(name) == Pass
    ensures MinNameLength <= |name| <= MaxNameLength
    ensures |Encode(name)| == |name|
    ensures forall i :: 0 <= i < |name| ==> Encode(name)[i] == name[i] as int
  {
    forall i | 0 <= i < |name| ensures IsAscii(name[i]) {
      AlphabetMembership(name[i]);
    }
    AsciiEncoding(name);
  }

  /** The first offender is reported, and the scan stops there. */
  lemma FirstOffenderExample()
    ensures ValidateName("ab!cd") == Fail(InvalidCharacter('!'))
  {
    var name := "ab!cd";
    assert Encode(name) == [97, 98, 33, 99, 100];
    AlphabetMembership('a');
    AlphabetMembership('b');
    AlphabetMembership('!');
    ReportsFirstInvalid(name, 2);
  }

  /** Length counts bytes: a single two-byte character is too short. */
  lemma ByteLengthExample()
    ensures ValidateName("\U{E9}") == Fail(NameTooShort(2, MinNameLength))
  {
    assert Encode("\U{E9}") == [0xC3, 0xA9];
  }

  /** Two letters and one two-byte character pass the length check (four bytes) and
      are refused for the character. */
  lemma NonAsciiExample()
    ensures ValidateName("\U{E9}ab") == Fail(InvalidCharacter('\U{E9}'))
  {
    assert Encode("\U{E9}ab") == [0xC3, 0xA9, 97, 98];
    assert FirstInvalid("\U{E9}ab") == Some(0);
  }
}
