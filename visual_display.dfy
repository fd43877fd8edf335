/**
 * The frame parse of the display process (VisualDisplay.cpp): the text of the
 * `AircraftData` region up to its first NUL is cut into lines with `getline`,
 * each line into up to five blank-separated fields with `getline(..., ' ')`,
 * and one five-field record per line is appended to `regularAircraftData`;
 * at the end of a display cycle the record and violation vectors are cleared.
 */
module VisualDisplay {
  import opened Bytes
  import opened Frames
  import opened ComputerEngine
  import opened AircraftModel

  const Newline: byte := 10
  const Blank: byte := 32

  const FieldCount: nat := 5

  /** An `array<string, 5>`: fields not filled stay empty strings. */
  type Record = r: seq<seq<byte>> | |r| == FieldCount witness [[], [], [], [], []]

  /** The length of the text before the first `d`, or all of it. */
  function PieceLength(s: seq<byte>, d: byte): (n: nat)
    ensures n <= |s|
    ensures forall i :: 0 <= i < n ==> s[i] != d
    ensures n < |s| ==> s[n] == d
  {
    if s == [] || s[0] == d then 0 else 1 + PieceLength(s[1..], d)
  }

  /** The text a `getline(stream, piece, d)` call leaves: after the first `d`, or nothing. */
  function AfterPiece(s: seq<byte>, d: byte): (r: seq<byte>)
    ensures s != [] ==> |r| < |s|
  {
    var n := PieceLength(s, d);
    if n == |s| then [] else s[n + 1..]
  }

  /**
   * The strings repeated `getline(stream, piece, d)` calls yield: each call takes
   * the text up to the next `d` and drops the `d`; a call fails only when no
   * text is left.
   */
  function Pieces(s: seq<byte>, d: byte): (ps: seq<seq<byte>>)
    ensures s != [] <==> ps != []
    decreases |s|
  {
    if s == [] then [] else [s[..PieceLength(s, d)]] + Pieces(AfterPiece(s, d), d)
  }

  /** No piece holds the delimiter. */
  lemma {:induction false} PiecesAvoidDelimiter(s: seq<byte>, d: byte)
    ensures forall i :: 0 <= i < |Pieces(s, d)| ==> d !in Pieces(s, d)[i]
    decreases |s|
  {
    if s != [] {
      PiecesAvoidDelimiter(AfterPiece(s, d), d);
    }
  }

  /** The text is the first piece, the delimiter after it and the rest; or the piece alone when no delimiter follows. */
  lemma PieceSplit(s: seq<byte>, d: byte)
    requires s != []
    ensures var n := PieceLength(s, d);
            if n == |s| then s[..n] == s && AfterPiece(s, d) == []
            else s == s[..n] + [d] + AfterPiece(s, d)
  {
    var n := PieceLength(s, d);
    if n < |s| {
      assert s[n] == d;
      assert s == s[..n] + [s[n]] + s[n + 1..];
    }
  }

  /** One `getline` call: the first piece, then the pieces of what it leaves. */
  lemma PiecesStep(s: seq<byte>, d: byte)
    requires s != []
    ensures Pieces(s, d) == [s[..PieceLength(s, d)]] + Pieces(AfterPiece(s, d), d)
  {
  }

  /** The pieces put back together, a delimiter between each two. */
  function Join(ps: seq<seq<byte>>, d: byte): seq<byte>
  {
    if ps == [] then [] else if |ps| == 1 then ps[0] else ps[0] + [d] + Join(ps[1..], d)
  }

  predicate EndsWith(s: seq<byte>, d: byte) {
    s != [] && s[|s| - 1] == d
  }

  /** The final delimiter `getline` drops, if there is one. */
  function Tail(s: seq<byte>, d: byte): seq<byte> {
    if EndsWith(s, d) then [d] else []
  }

  lemma JoinCons(p: seq<byte>, ps: seq<seq<byte>>, d: byte)
    requires ps != []
    ensures Join([p] + ps, d) == p + [d] + Join(ps, d)
  {
    assert ([p] + ps)[0] == p;
    assert ([p] + ps)[1..] == ps;
  }

  lemma JoinSingle(p: seq<byte>, d: byte)
    ensures Join([p] + [], d) == p
  {
    assert [p] + [] == [p];
  }

  /** The inductive step of `JoinPieces`, with its reassociation spelled out. */
  lemma JoinLongerText(piece: seq<byte>, ps: seq<seq<byte>>, tail: seq<byte>, rest: seq<byte>, d: byte)
    requires ps != [] && Join(ps, d) + tail == rest
    ensures Join([piece] + ps, d) + tail == piece + [d] + rest
  {
    JoinCons(piece, ps, d);
    var j := Join(ps, d);
    assert piece + [d] + j + tail == piece + [d] + (j + tail);
  }

  /** A text that is a single piece, with or without a final delimiter, is given back. */
  lemma JoinLastPiece(s: seq<byte>, d: byte)
    requires s != [] && AfterPiece(s, d) == []
    ensures Join(Pieces(s, d), d) + Tail(s, d) == s
  {
    var n := PieceLength(s, d);
    PiecesStep(s, d);
    PieceSplit(s, d);
    JoinSingle(s[..n], d);
    if n == |s| {
      assert s[|s| - 1] != d;
    } else {
      assert s == s[..n] + [d];
    }
  }

  /** A final delimiter belongs to the last piece of the text. */
  lemma TailOfLonger(piece: seq<byte>, rest: seq<byte>, d: byte)
    requires rest != []
    ensures Tail(piece + [d] + rest, d) == Tail(rest, d)
  {
    var s := piece + [d] + rest;
    assert s[|s| - 1] == rest[|rest| - 1];
  }

  /**
   * Splitting loses nothing: joining the pieces gives the text back, less a
   * final delimiter, which `getline` drops without starting another piece.
   */
  lemma {:induction false} JoinPieces(s: seq<byte>, d: byte)
    ensures Join(Pieces(s, d), d) + Tail(s, d) == s
    decreases |s|
  {
    if s != [] {
      var rest := AfterPiece(s, d);
      if rest == [] {
        JoinLastPiece(s, d);
      } else {
        var piece := s[..PieceLength(s, d)];
        PiecesStep(s, d);
        PieceSplit(s, d);
        JoinPieces(rest, d);
        JoinLongerText(piece, Pieces(rest, d), Tail(rest, d), rest, d);
        TailOfLonger(piece, rest, d);
      }
    }
  }

  /** The record a line gives: field `i` is its `i`-th blank-separated token, empty past the last token. */
  function Fields(line: seq<byte>): (r: Record)
    ensures forall i :: 0 <= i < FieldCount && i < |Pieces(line, Blank)| ==> r[i] == Pieces(line, Blank)[i]
    ensures forall i :: |Pieces(line, Blank)| <= i < FieldCount ==> r[i] == []
  {
    var tokens := Pieces(line, Blank);
    seq(FieldCount, i requires 0 <= i < FieldCount => if i < |tokens| then tokens[i] else [])
  }

  /** Taking the first of the remaining pieces moves it to the pieces already taken. */
  lemma AppendStep(done: seq<seq<byte>>, x: seq<byte>, later: seq<seq<byte>>, all: seq<seq<byte>>)
    requires all == [x] + later
    ensures (done + [x]) + later == done + all
  {
  }

  /** One record per line. */
  function RecordsOf(lines: seq<seq<byte>>): (rs: seq<Record>)
    ensures |rs| == |lines|
    ensures forall i :: 0 <= i < |lines| ==> rs[i] == Fields(lines[i])
  {
    seq(|lines|, i requires 0 <= i < |lines| => Fields(lines[i]))
  }

  lemma RecordsOfSnoc(lines: seq<seq<byte>>, line: seq<byte>)
    ensures RecordsOf(lines + [line]) == RecordsOf(lines) + [Fields(line)]
  {
  }

  /** The records of a frame text: one per line, in order. */
  function ParseText(text: seq<byte>): (rs: seq<Record>)
    ensures |rs| == |Pieces(text, Newline)|
    ensures forall i :: 0 <= i < |rs| ==> rs[i] == Fields(Pieces(text, Newline)[i])
  {
    RecordsOf(Pieces(text, Newline))
  }

  /** Bytes after the first NUL of a region never reach the parse. */
  lemma ParseStopsAtNul(text: seq<byte>, junk: seq<byte>)
    requires NUL !in text
    ensures ParseText(CString(text + [NUL] + junk)) == ParseText(text)
  {
    CStringOfTerminated(text, junk);
  }

  /**
   * The analysis process writes its version number at offset 0 of the same
   * region.  For any version below 2^24 its top byte is 0, so the text the
   * display reads ends inside the version bytes: what it parses depends on the
   * version alone, never on the roster or the records behind it.  When the
   * version's low byte is 0 as well, the display sees no record at all.
   */
  lemma PublishedFrameHidesRecords(roster: seq<AircraftState>, version: int, format: AircraftState -> seq<byte>)
    requires 0 <= version < 0x100_0000
    ensures |CString(AircraftFrame(roster, version, format))| < Int32Size
    ensures ParseText(CString(AircraftFrame(roster, version, format))) == ParseText(CString(EncodeInt32(version)))
    ensures version % 0x100 == 0 ==> ParseText(CString(AircraftFrame(roster, version, format))) == []
  {
    var f := AircraftFrame(roster, version, format);
    var v := EncodeInt32(version);
    assert f[..Int32Size] == v;
    assert v[3] == NUL;
    CStringWithinPrefix(f, Int32Size);
    if version % 0x100 == 0 {
      assert v[0] == NUL;
      assert CString(v) == [];
    }
  }

  /** The vectors of the display process. */
  class Display {
    var regularAircraftData: seq<Record>
    var augmentedAircraftData: seq<seq<seq<byte>>>
    var violations: seq<seq<byte>>

    constructor ()
      ensures regularAircraftData == [] && augmentedAircraftData == [] && violations == []
    {
      regularAircraftData := [];
      augmentedAircraftData := [];
      violations := [];
    }

    /** The fields gathered so far fill the record once the tokens run out or five are taken. */
    static lemma FieldsGathered(line: seq<byte>, fields: Record, i: nat, stream: seq<byte>)
      requires i <= FieldCount
      requires Pieces(line, Blank) == fields[..i] + Pieces(stream, Blank)
      requires forall k :: i <= k < FieldCount ==> fields[k] == []
      requires stream == [] || i == FieldCount
      ensures fields == Fields(line)
    {
      var tokens := Pieces(line, Blank);
      forall k | 0 <= k < FieldCount ensures fields[k] == Fields(line)[k] {
        if k < i {
          assert tokens[k] == fields[k];
        }
      }
    }

    /** One token taken: the prefix of gathered fields grows by the token the pieces start with. */
    static lemma SplitStep(fields: Record, i: nat, token: seq<byte>, pieces: seq<seq<byte>>, later: seq<seq<byte>>)
      requires i < FieldCount && pieces == [token] + later
      ensures fields[i := token][..i + 1] + later == fields[..i] + pieces
    {
      assert fields[i := token][..i + 1] == fields[..i] + [token];
    }

    /** One pass of the inner loop: the next token of the line becomes field `i`. */
    static method TakeToken(line: seq<byte>, fields: Record, i: nat, stream: seq<byte>)
      returns (next: Record, rest: seq<byte>)
      requires i < FieldCount && stream != []
      requires Pieces(line, Blank) == fields[..i] + Pieces(stream, Blank)
      requires forall k :: i <= k < FieldCount ==> fields[k] == []
      ensures |rest| < |stream|
      ensures Pieces(line, Blank) == next[..i + 1] + Pieces(rest, Blank)
      ensures forall k :: i + 1 <= k < FieldCount ==> next[k] == []
    {
      var token := stream[..PieceLength(stream, Blank)];
      rest := AfterPiece(stream, Blank);
      PiecesStep(stream, Blank);
      SplitStep(fields, i, token, Pieces(stream, Blank), Pieces(rest, Blank));
      next := fields[i := token];
    }

    /** The inner loop: up to five `getline(..., ' ')` calls, stopping at the first that fails. */
    static method SplitLine(line: seq<byte>) returns (fields: Record)
      ensures fields == Fields(line)
    {
      fields := [[], [], [], [], []];
      var stream := line;
      var i: nat := 0;
      while i < FieldCount
        invariant 0 <= i <= FieldCount
        invariant Pieces(line, Blank) == fields[..i] + Pieces(stream, Blank)
        invariant forall k :: i <= k < FieldCount ==> fields[k] == []
      {
        if stream == [] {
          break;
        }
        fields, stream := TakeToken(line, fields, i, stream);
        i := i + 1;
      }
      FieldsGathered(line, fields, i, stream);
    }

    /** One pass of the outer loop: the next line of the text is read and its record appended. */
    method ReadLine(stream: seq<byte>, ghost text: seq<byte>, ghost done: seq<seq<byte>>, ghost base: seq<Record>)
      returns (rest: seq<byte>, ghost doneNext: seq<seq<byte>>)
      requires stream != []
      requires done + Pieces(stream, Newline) == Pieces(text, Newline)
      requires regularAircraftData == base + RecordsOf(done)
      modifies this
      ensures |rest| < |stream|
      ensures doneNext + Pieces(rest, Newline) == Pieces(text, Newline)
      ensures regularAircraftData == base + RecordsOf(doneNext)
      ensures augmentedAircraftData == old(augmentedAircraftData) && violations == old(violations)
    {
      var line := stream[..PieceLength(stream, Newline)];
      rest := AfterPiece(stream, Newline);
      PiecesStep(stream, Newline);
      AppendStep(done, line, Pieces(rest, Newline), Pieces(stream, Newline));
      var fields := SplitLine(line);
      RecordsOfSnoc(done, line);
      regularAircraftData := regularAircraftData + [fields];
      doneNext := done + [line];
    }

    /**
     * The outer loop over the region's text: one record appended per line, in
     * order, after the records already held.
     */
    method ReadRegularData(region: seq<byte>)
      modifies this
      ensures regularAircraftData == old(regularAircraftData) + ParseText(CString(region))
      ensures augmentedAircraftData == old(augmentedAircraftData) && violations == old(violations)
    {
      var text := CString(region);
      var stream := text;
      ghost var done: seq<seq<byte>> := [];
      while stream != []
        invariant done + Pieces(stream, Newline) == Pieces(text, Newline)
        invariant regularAircraftData == old(regularAircraftData) + RecordsOf(done)
        invariant augmentedAircraftData == old(augmentedAircraftData) && violations == old(violations)
        decreases |stream|
      {
        stream, done := ReadLine(stream, text, done, old(regularAircraftData));
      }
      assert done + [] == done;
    }

    /** The end of a display cycle: `clear()` on the three vectors. */
    method ClearVectors()
      modifies this
      ensures regularAircraftData == [] && augmentedAircraftData == [] && violations == []
    {
      regularAircraftData := [];
      augmentedAircraftData := [];
      violations := [];
    }
  }
}
