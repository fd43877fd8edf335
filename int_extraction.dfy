/**
 * `istream >> int` on a string stream in the "C" locale, as C++11 specifies
 * it: the sentry skips white space and fails at the end of the text, leaving
 * the variable untouched; otherwise an optional sign and a run of decimal
 * digits are read, a missing number stores 0 and fails, and a number outside
 * the `int` range stores the nearest bound and fails.  Once the stream has
 * failed or reached its end, further extractions change nothing.
 */
module IntExtraction {
  import opened Bytes

  const IntMin: int := -0x8000_0000
  const IntMax: int := 0x7fff_ffff

  const Space: byte := 32
  const Plus: byte := 43
  const Minus: byte := 45
  const Zero: byte := 48

  /** `isspace` in the "C" locale: blank, tab, newline, vertical tab, form feed, carriage return. */
  predicate IsSpace(b: byte) {
    b == Space || 9 <= b <= 13
  }

  predicate IsDigit(b: byte) {
    Zero <= b < Zero + 10
  }

  /** The text after the leading white space. */
  function SkipSpaces(s: seq<byte>): (r: seq<byte>)
    ensures |r| <= |s| && r == s[|s| - |r|..]
    ensures forall i :: 0 <= i < |s| - |r| ==> IsSpace(s[i])
    ensures r != [] ==> !IsSpace(r[0])
  {
    if s != [] && IsSpace(s[0]) then SkipSpaces(s[1..]) else s
  }

  /** The length of the run of digits at the start of `s`. */
  function DigitRun(s: seq<byte>): (n: nat)
    ensures n <= |s|
    ensures forall i :: 0 <= i < n ==> IsDigit(s[i])
    ensures n < |s| ==> !IsDigit(s[n])
  {
    if s != [] && IsDigit(s[0]) then 1 + DigitRun(s[1..]) else 0
  }

  function DigitValue(b: byte): (d: nat)
    requires IsDigit(b)
    ensures d < 10
  {
    b - Zero
  }

  /** The number a run of decimal digits denotes. */
  function DigitsValue(ds: seq<byte>): (v: nat)
    requires forall i :: 0 <= i < |ds| ==> IsDigit(ds[i])
  {
    if ds == [] then 0 else 10 * DigitsValue(ds[..|ds| - 1]) + DigitValue(ds[|ds| - 1])
  }

  /** `good()`, end of text reached (`eofbit` only), or `failbit` set. */
  datatype StreamState = Good | AtEnd | Failed

  /** The value stored (or left) in the variable, the unread text and the new stream state. */
  datatype Extraction = Extraction(value: int, rest: seq<byte>, state: StreamState)

  /** The number after the sign: a run of digits, or 0 and failure when there is none. */
  function ReadNumber(u: seq<byte>, negative: bool): (e: Extraction)
    ensures e.state != Failed ==> IsInt32(e.value)
  {
    var n := DigitRun(u);
    if n == 0 then Extraction(0, u, Failed)
    else
      var magnitude := DigitsValue(u[..n]);
      var v: int := if negative then -(magnitude as int) else magnitude;
      var rest := u[n..];
      if v > IntMax then Extraction(IntMax, rest, Failed)
      else if v < IntMin then Extraction(IntMin, rest, Failed)
      else Extraction(v, rest, if rest == [] then AtEnd else Good)
  }

  /** One `>> int` from text `s` in state `state`, into a variable currently holding `prior`. */
  function Extract(s: seq<byte>, state: StreamState, prior: int): (e: Extraction)
    ensures e.state != Failed ==> IsInt32(e.value)
    ensures state != Good ==> e == Extraction(prior, s, Failed)
  {
    if state != Good then Extraction(prior, s, Failed)
    else
      var t := SkipSpaces(s);
      if t == [] then Extraction(prior, [], Failed)
      else if t[0] == Minus || t[0] == Plus then ReadNumber(t[1..], t[0] == Minus)
      else ReadNumber(t, false)
  }

  /** The decimal digits of a natural number, as `operator<<` writes them. */
  function ShowNat(n: nat): (ds: seq<byte>)
    ensures ds != []
    ensures forall i :: 0 <= i < |ds| ==> IsDigit(ds[i])
  {
    if n < 10 then [Zero + n] else ShowNat(n / 10) + [Zero + n % 10]
  }

  /** An `int` in decimal, with a minus sign when negative. */
  function ShowInt(n: int): seq<byte> {
    if n < 0 then [Minus] + ShowNat(-n) else ShowNat(n)
  }

  lemma {:induction false} DigitsValueShowNat(n: nat)
    ensures DigitsValue(ShowNat(n)) == n
  {
    if n >= 10 {
      DigitsValueShowNat(n / 10);
      var ds := ShowNat(n);
      assert ds[..|ds| - 1] == ShowNat(n / 10);
    }
  }

  lemma {:induction false} DigitRunOfDigits(ds: seq<byte>, rest: seq<byte>)
    requires forall i :: 0 <= i < |ds| ==> IsDigit(ds[i])
    requires rest == [] || !IsDigit(rest[0])
    ensures DigitRun(ds + rest) == |ds|
  {
    if ds != [] {
      assert (ds + rest)[1..] == ds[1..] + rest;
      DigitRunOfDigits(ds[1..], rest);
    }
  }

  lemma SkipSpacesStops(s: seq<byte>)
    requires s != [] && !IsSpace(s[0])
    ensures SkipSpaces(s) == s
  {
  }

  /** A run of digits followed by a non-digit is read whole. */
  lemma ReadDigits(ds: seq<byte>, rest: seq<byte>, negative: bool)
    requires ds != [] && forall i :: 0 <= i < |ds| ==> IsDigit(ds[i])
    requires rest == [] || !IsDigit(rest[0])
    requires IsInt32(if negative then -(DigitsValue(ds) as int) else DigitsValue(ds))
    ensures ReadNumber(ds + rest, negative) ==
              Extraction(if negative then -(DigitsValue(ds) as int) else DigitsValue(ds), rest, if rest == [] then AtEnd else Good)
  {
    DigitRunOfDigits(ds, rest);
    assert (ds + rest)[..|ds|] == ds;
    assert (ds + rest)[|ds|..] == rest;
  }

  /** A minus sign is consumed and the number after it read as negative. */
  lemma ExtractAfterMinus(u: seq<byte>, prior: int)
    ensures Extract([Minus] + u, Good, prior) == ReadNumber(u, true)
  {
    var s := [Minus] + u;
    SkipSpacesStops(s);
    assert s[0] == Minus && s[1..] == u;
  }

  /** A leading digit is neither white space nor a sign, so the number is read from the start. */
  lemma ExtractAtDigit(u: seq<byte>, prior: int)
    requires u != [] && IsDigit(u[0])
    ensures Extract(u, Good, prior) == ReadNumber(u, false)
  {
    SkipSpacesStops(u);
  }

  /**
   * Reading back what was written: an `int` in decimal, followed by anything
   * that does not continue the number, is extracted exactly, and the stream
   * stays good unless the text ended.
   */
  lemma ExtractShowInt(n: int, rest: seq<byte>, prior: int)
    requires IsInt32(n)
    requires rest == [] || !IsDigit(rest[0])
    ensures Extract(ShowInt(n) + rest, Good, prior) == Extraction(n, rest, if rest == [] then AtEnd else Good)
  {
    if n < 0 {
      var m: nat := -n;
      var ds := ShowNat(m);
      assert ShowInt(n) + rest == [Minus] + (ds + rest);
      ExtractAfterMinus(ds + rest, prior);
      DigitsValueShowNat(m);
      assert -(DigitsValue(ds) as int) == n;
      ReadDigits(ds, rest, true);
    } else {
      var ds := ShowNat(n);
      assert ShowInt(n) + rest == ds + rest;
      assert (ds + rest)[0] == ds[0];
      ExtractAtDigit(ds + rest, prior);
      DigitsValueShowNat(n);
      ReadDigits(ds, rest, false);
    }
  }

  /** An `int` after a blank, as the fields after the first are written. */
  function SpacedInt(n: int): seq<byte> {
    [Space] + ShowInt(n)
  }

  /** Leading white space does not change what is extracted. */
  lemma ExtractSkipsBlank(t: seq<byte>, prior: int)
    ensures Extract([Space] + t, Good, prior) == Extract(t, Good, prior)
  {
    assert ([Space] + t)[1..] == t;
    assert SkipSpaces([Space] + t) == SkipSpaces(t);
  }

  /** The blank is skipped and the number after it read back. */
  lemma ExtractSpacedInt(n: int, rest: seq<byte>, prior: int)
    requires IsInt32(n)
    requires rest == [] || !IsDigit(rest[0])
    ensures Extract(SpacedInt(n) + rest, Good, prior) == Extraction(n, rest, if rest == [] then AtEnd else Good)
  {
    var t := ShowInt(n) + rest;
    assert SpacedInt(n) + rest == [Space] + t;
    ExtractSkipsBlank(t, prior);
    ExtractShowInt(n, rest, prior);
  }

  /** A request as `iss >> aircraftID >> newSpeedX >> newSpeedY >> newSpeedZ` leaves the four variables. */
  datatype SpeedRequest = SpeedRequest(aircraftID: int, speedX: int, speedY: int, speedZ: int)

  /** The four extractions in a row; `init` holds the variables' indeterminate initial values. */
  function ParseRequest(text: seq<byte>, init: SpeedRequest): (r: SpeedRequest)
  {
    var e1 := Extract(text, Good, init.aircraftID);
    var e2 := Extract(e1.rest, e1.state, init.speedX);
    var e3 := Extract(e2.rest, e2.state, init.speedY);
    var e4 := Extract(e3.rest, e3.state, init.speedZ);
    SpeedRequest(e1.value, e2.value, e3.value, e4.value)
  }

  /** The command text a sender writes for a request: the four numbers separated by single blanks. */
  function ShowRequest(r: SpeedRequest): seq<byte> {
    ShowInt(r.aircraftID) + (SpacedInt(r.speedX) + (SpacedInt(r.speedY) + SpacedInt(r.speedZ)))
  }

  /** Parsing a written request gives it back, whatever the variables held before. */
  lemma ParseShowRequest(r: SpeedRequest, init: SpeedRequest)
    requires IsInt32(r.aircraftID) && IsInt32(r.speedX) && IsInt32(r.speedY) && IsInt32(r.speedZ)
    ensures ParseRequest(ShowRequest(r), init) == r
  {
    var t4 := SpacedInt(r.speedZ);
    var t3 := SpacedInt(r.speedY) + t4;
    var t2 := SpacedInt(r.speedX) + t3;
    ExtractShowInt(r.aircraftID, t2, init.aircraftID);
    ExtractSpacedInt(r.speedX, t3, init.speedX);
    ExtractSpacedInt(r.speedY, t4, init.speedY);
    ExtractSpacedInt(r.speedZ, [], init.speedZ);
    assert t4 + [] == t4;
  }

  /**
   * A command that ends after the ID leaves the three speed variables as they
   * were: with uninitialised locals their values are indeterminate.
   */
  lemma MissingSpeedsStayUnset(id: int, init: SpeedRequest)
    requires IsInt32(id)
    ensures ParseRequest(ShowInt(id), init) == SpeedRequest(id, init.speedX, init.speedY, init.speedZ)
  {
    ExtractShowInt(id, [], init.aircraftID);
    assert ShowInt(id) + [] == ShowInt(id);
  }

  /** A command that does not start with a number stores 0 as the ID and leaves the speeds as they were. */
  lemma NonNumericCommand(text: seq<byte>, init: SpeedRequest)
    requires text != [] && !IsSpace(text[0]) && !IsDigit(text[0]) && text[0] != Plus && text[0] != Minus
    ensures ParseRequest(text, init) == SpeedRequest(0, init.speedX, init.speedY, init.speedZ)
  {
    assert SkipSpaces(text) == text;
  }
}
