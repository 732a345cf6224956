/** `DecodeBencode`: the string and integer forms of bencode (section
    "bencoding" of BEP 3) as the client reads them itself, with every
    other input handed to a bencode library. */
module Bencode {
  import opened Base
  import opened Decimal

  const Colon: byte := 58   // ':'
  const LetterI: byte := 105  // 'i'
  const LetterE: byte := 101  // 'e'

  /** A decoded value: a byte string, an integer, or whatever the library
      returned for the input. */
  datatype Decoded<V> = Text(bytes: seq<byte>) | Integer(n: int) | Library(value: V)

  /** The index of the first ':' of s, if there is one. */
  function ColonIndex(s: seq<byte>): (r: Option<nat>)
    ensures r.Some? ==> r.value < |s| && s[r.value] == Colon
    ensures r.Some? ==> forall j :: 0 <= j < r.value ==> s[j] != Colon
    ensures r.None? ==> forall j :: 0 <= j < |s| ==> s[j] != Colon
  {
    if |s| == 0 then None
    else if s[0] == Colon then Some(0)
    else match ColonIndex(s[1..])
      case None => None
      case Some(i) => Some(i + 1)
  }

  /** `firstColonIndex` after the search loop: it keeps its zero value when
      there is no colon. */
  function FirstColon(s: seq<byte>): nat
  {
    match ColonIndex(s)
    case None => 0
    case Some(i) => i
  }

  /** A colon with none before it is the first colon. */
  lemma FirstColonAt(s: seq<byte>, i: nat)
    requires i < |s| && s[i] == Colon
    requires forall j :: 0 <= j < i ==> s[j] != Colon
    ensures FirstColon(s) == i
  {
    assert ColonIndex(s).Some?;
  }

  /** `decodeBenEncdoedNumber`: at least three bytes, 'i' first and 'e'
      last, and `strconv.Atoi` of what lies between. */
  function DecodeNumber(s: seq<byte>): Result<int>
  {
    if |s| < 3 then Err(IntegerTooShort)
    else if s[0] != LetterI || s[|s| - 1] != LetterE then Err(IntegerNotDelimited)
    else Atoi(s[1..|s| - 1])
  }

  /** What `DecodeBencode` returns. `library` stands for what
      `bencode.Decode` gives for the whole input (None when it fails).
      - empty input: indexing byte 0 panics;
      - a leading digit: the decimal text before the first colon is the
        length of the string that follows the colon; a length running past
        the end panics in the slice;
      - otherwise an integer, else the library's value, else an error. */
  function DecodeSpec<V>(s: seq<byte>, library: Option<V>): Result<Decoded<V>>
  {
    if |s| == 0 then Err(Panic(IndexOutOfRange))
    else if IsDigit(s[0]) then
      var colon := FirstColon(s);
      match Atoi(s[..colon])
      case Err(e) => Err(e)
      case Ok(length) =>
        if colon + 1 + length > |s| then Err(Panic(SliceBoundsOutOfRange))
        else Ok(Text(s[colon + 1..colon + 1 + length]))
    else match DecodeNumber(s)
      case Ok(n) => Ok(Integer(n))
      case Err(_) =>
        match library
        case Some(v) => Ok(Library(v))
        case None => Err(Unsupported)
  }

  /** `DecodeBencode` with its colon search loop. */
  method DecodeBencode<V>(s: seq<byte>, library: Option<V>) returns (r: Result<Decoded<V>>)
    ensures r == DecodeSpec(s, library)
  {
    if |s| == 0 {
      return Err(Panic(IndexOutOfRange));
    }
    if IsDigit(s[0]) {
      var firstColonIndex := 0;
      var i := 0;
      while i < |s|
        invariant 0 <= i <= |s|
        invariant forall j :: 0 <= j < i ==> s[j] != Colon
        invariant firstColonIndex == 0
      {
        if s[i] == Colon {
          firstColonIndex := i;
          break;
        }
        i := i + 1;
      }
      assert firstColonIndex == FirstColon(s);
      var lengthStr := s[..firstColonIndex];
      var length := Atoi(lengthStr);
      if length.Err? {
        return Err(length.error);
      }
      if firstColonIndex + 1 + length.value > |s| {
        return Err(Panic(SliceBoundsOutOfRange));
      }
      return Ok(Text(s[firstColonIndex + 1..firstColonIndex + 1 + length.value]));
    } else {
      var number := DecodeNumber(s);
      if number.Ok? {
        return Ok(Integer(number.value));
      } else if library.Some? {
        return Ok(Library(library.value));
      } else {
        return Err(Unsupported);
      }
    }
  }

  // ---------------------------------------------------------------------
  // Properties

  /** A byte string written as its decimal length, a colon and its bytes
      decodes to those bytes, whatever follows it. */
  lemma StringRoundTrip<V>(t: seq<byte>, rest: seq<byte>, library: Option<V>)
    requires |t| <= MaxInt64
    ensures DecodeSpec(Itoa(|t|) + [Colon] + t + rest, library) == Ok(Text(t))
  {
    var prefix := Itoa(|t|);
    var s := prefix + [Colon] + t + rest;
    assert forall j :: 0 <= j < |prefix| ==> s[j] == prefix[j];
    FirstColonAt(s, |prefix|);
    assert s[..|prefix|] == prefix;
    AtoiItoa(|t|);
    assert s[|prefix| + 1..|prefix| + 1 + |t|] == t;
  }

  /** A leading digit with no colon anywhere is read as an empty length,
      which `strconv.Atoi` rejects. */
  lemma NoColonIsInvalid<V>(s: seq<byte>, library: Option<V>)
    requires |s| > 0 && IsDigit(s[0])
    requires forall j :: 0 <= j < |s| ==> s[j] != Colon
    ensures DecodeSpec(s, library) == Err(InvalidNumber)
  {
    assert ColonIndex(s).None?;
  }

  /** A declared length that runs past the end of the input panics rather
      than returning an error. */
  lemma LengthPastEndPanics<V>(digits: seq<byte>, t: seq<byte>, library: Option<V>)
    requires |digits| > 0 && AllDigits(digits)
    requires |t| < Value(digits) <= MaxInt64
    ensures DecodeSpec(digits + [Colon] + t, library) == Err(Panic(SliceBoundsOutOfRange))
  {
    var s := digits + [Colon] + t;
    assert forall j :: 0 <= j < |digits| ==> s[j] == digits[j] && IsDigit(s[j]);
    FirstColonAt(s, |digits|);
    assert s[..|digits|] == digits;
    assert Atoi(digits) == Ok(Value(digits));
  }

  /** An integer written as 'i', its decimal text and 'e' decodes to it. */
  lemma IntegerRoundTrip<V>(n: int64, library: Option<V>)
    ensures DecodeSpec([LetterI] + Itoa(n) + [LetterE], library) == Ok(Integer(n))
  {
    var s := [LetterI] + Itoa(n) + [LetterE];
    assert s[1..|s| - 1] == Itoa(n);
    AtoiItoa(n);
  }

  /** Input that does not start with a digit decodes to an integer exactly
      when it has at least three bytes, 'i' first and 'e' last, and the
      text between them is a decimal `strconv.Atoi` accepts. */
  lemma IntegerBranch<V>(s: seq<byte>, library: Option<V>, n: int)
    requires |s| > 0 && !IsDigit(s[0])
    ensures DecodeSpec(s, library) == Ok(Integer(n)) <==>
      |s| >= 3 && s[0] == LetterI && s[|s| - 1] == LetterE && Atoi(s[1..|s| - 1]) == Ok(n)
  {
  }

  /** `decodeBenEncdoedNumber` rejects an input shorter than three bytes,
      and one not of the form 'i' ... 'e', before reading any digit. */
  lemma NumberRejects(s: seq<byte>)
    ensures |s| < 3 ==> DecodeNumber(s) == Err(IntegerTooShort)
    ensures |s| >= 3 && (s[0] != LetterI || s[|s| - 1] != LetterE) ==> DecodeNumber(s) == Err(IntegerNotDelimited)
    ensures DecodeNumber(s).Ok? ==> |s| >= 3 && s[0] == LetterI && s[|s| - 1] == LetterE
  {
  }

  /** The integer form is read by `strconv.Atoi`, so it accepts what
      bencode forbids: a leading zero, a plus sign and a negative zero. */
  lemma LenientIntegers<V>(library: Option<V>)
    ensures DecodeSpec([LetterI, 48, 51, LetterE], library) == Ok(Integer(3))
    ensures DecodeSpec([LetterI, Plus, 51, LetterE], library) == Ok(Integer(3))
    ensures DecodeSpec([LetterI, Minus, 48, LetterE], library) == Ok(Integer(0))
  {
    assert [LetterI, 48, 51, LetterE][1..3] == [48, 51];
    assert [48, 51][..1] == [48] && [48][..0] == [];
    assert Value([48, 51]) == 3;
    assert [51][..0] == [];
    assert Value([51]) == 3;
    assert Value([48]) == 0;
    assert [LetterI, Plus, 51, LetterE][1..3] == [Plus, 51];
    assert [LetterI, Minus, 48, LetterE][1..3] == [Minus, 48];
  }

  /** The library decides exactly the inputs that are neither a string nor
      an integer the client reads itself. */
  lemma LibraryIsFallback<V>(s: seq<byte>, v: V)
    ensures DecodeSpec(s, Some(v)) == Ok(Library(v)) <==>
      |s| > 0 && !IsDigit(s[0]) && DecodeNumber(s).Err?
    ensures DecodeSpec(s, None) == DecodeSpec(s, Some(v)) <==>
      (|s| == 0 || IsDigit(s[0]) || DecodeNumber(s).Ok?)
  {
  }
}
