/** `simple_caesar_cypher` of `CaesarCypher.py`: lower-case letters are rotated, every other
    character is copied. The code takes the alphabet's size to be `ord('z') - ord('a')`,
    which is 25 rather than 26. */
module Caesar {

  /** `RANGE = ORD_Z - ORD_A` as written. */
  const Range: int := 'z' as int - 'a' as int

  predicate IsLower(c: char)
  {
    'a' <= c <= 'z'
  }

  /** The position of a lower-case letter in the alphabet, 0 for `'a'`. */
  function Pos(c: char): int
  {
    c as int - 'a' as int
  }

  /** One character of the loop body: shift a lower-case letter by `offset` and roll back by
      `RANGE + 1` once past `'z'`; copy anything else. */
  function RotateChar(c: char, offset: int): (r: char)
    requires 0 <= offset <= Range
    ensures IsLower(c) ==> IsLower(r) && Pos(r) == (Pos(c) + offset) % 26
    ensures !IsLower(c) ==> r == c
  {
    if IsLower(c) then
      var newOrd := c as int + offset;
      var rolled := if newOrd > 'z' as int then newOrd - Range - 1 else newOrd;
      rolled as char
    else
      c
  }

  /** The cypher text, character by character, with `offset = shift_mag % RANGE`. */
  function Cypher(s: string, shiftMag: int): (r: string)
    ensures |r| == |s|
    ensures forall k | 0 <= k < |s| :: !IsLower(s[k]) ==> r[k] == s[k]
    ensures forall k | 0 <= k < |s| :: IsLower(s[k]) ==>
      IsLower(r[k]) && Pos(r[k]) == (Pos(s[k]) + shiftMag % Range) % 26
  {
    seq(|s|, k requires 0 <= k < |s| => RotateChar(s[k], shiftMag % Range))
  }

  /** `simple_caesar_cypher`: the loop appends one character per input character. */
  method SimpleCaesarCypher(inputStr: string, shiftMag: int) returns (outputStr: string)
    ensures outputStr == Cypher(inputStr, shiftMag)
    ensures |outputStr| == |inputStr|
    ensures forall k | 0 <= k < |inputStr| :: !IsLower(inputStr[k]) ==> outputStr[k] == inputStr[k]
    ensures forall k | 0 <= k < |inputStr| :: IsLower(inputStr[k]) ==>
      IsLower(outputStr[k]) && Pos(outputStr[k]) == (Pos(inputStr[k]) + shiftMag % Range) % 26
  {
    var ordA, ordZ := 'a' as int, 'z' as int;
    var offset := shiftMag % Range;
    outputStr := "";
    for i := 0 to |inputStr|
      invariant |outputStr| == i
      invariant forall k | 0 <= k < i :: outputStr[k] == RotateChar(inputStr[k], offset)
    {
      var c := inputStr[i];
      var ordC := c as int;
      if ordA <= ordC < ordZ + 1 {
        var newOrdC := ordC + offset;
        if newOrdC > ordZ {
          newOrdC := newOrdC - Range - 1;
        }
        outputStr := outputStr + [newOrdC as char];
      } else {
        outputStr := outputStr + [c];
      }
    }
  }

  /** `shift_mag` and `shift_mag + 25` give the same cypher text. */
  lemma CypherPeriod(s: string, shiftMag: int)
    ensures Cypher(s, shiftMag + 25) == Cypher(s, shiftMag)
  {
    assert (shiftMag + 25) % Range == shiftMag % Range;
  }

  /** Every multiple of 25, including the shift 25 the docstring allows, leaves the text as
      it is. */
  lemma CypherIdentityAtMultiples(s: string, m: int)
    ensures Cypher(s, 25 * m) == s
  {
    assert (25 * m) % Range == 0;
  }

  /** For a fixed shift, different texts have different cypher texts. */
  lemma CypherInjective(s: string, t: string, shiftMag: int)
    requires Cypher(s, shiftMag) == Cypher(t, shiftMag)
    ensures s == t
  {
    var offset := shiftMag % Range;
    assert |s| == |t|;
    forall k | 0 <= k < |s|
      ensures s[k] == t[k]
    {
      var a, b := s[k], t[k];
      assert Cypher(s, shiftMag)[k] == Cypher(t, shiftMag)[k];
      assert RotateChar(a, offset) == RotateChar(b, offset);
      if IsLower(a) && IsLower(b) {
        assert (Pos(a) + offset) % 26 == (Pos(b) + offset) % 26;
        RotationInjective(Pos(a), Pos(b), offset);
      }
    }
  }

  lemma RotationInjective(x: int, y: int, offset: int)
    requires 0 <= x < 26 && 0 <= y < 26 && 0 <= offset < 26
    requires (x + offset) % 26 == (y + offset) % 26
    ensures x == y
  {
  }

  /** The off-by-one shows: a shift of 1 cannot be undone, because undoing it needs an offset
      of 25 and `shift_mag % 25` never is 25. `"a"` becomes `"b"`, and no shift brings `"b"`
      back to `"a"`. */
  lemma ShiftOneCannotBeUndone(shiftMag: int)
    ensures Cypher("a", 1) == "b"
    ensures Cypher("b", shiftMag) != "a"
  {
    assert Cypher("a", 1)[0] == 'b';
    var o := shiftMag % Range;
    assert Pos(Cypher("b", shiftMag)[0]) == (1 + o) % 26;
  }

  /** The evident intent: rotate within 26 letters, `offset = shift_mag % 26`. */
  function CypherCorrected(s: string, shiftMag: int): (r: string)
    ensures |r| == |s|
    ensures forall k | 0 <= k < |s| :: !IsLower(s[k]) ==> r[k] == s[k]
    ensures forall k | 0 <= k < |s| :: IsLower(s[k]) ==>
      IsLower(r[k]) && Pos(r[k]) == (Pos(s[k]) + shiftMag % 26) % 26
  {
    seq(|s|, k requires 0 <= k < |s| => RotateCorrected(s[k], shiftMag % 26))
  }

  function RotateCorrected(c: char, offset: int): (r: char)
    requires 0 <= offset < 26
    ensures IsLower(c) ==> IsLower(r) && Pos(r) == (Pos(c) + offset) % 26
    ensures !IsLower(c) ==> r == c
  {
    if IsLower(c) then
      var newOrd := c as int + offset;
      var rolled := if newOrd > 'z' as int then newOrd - 26 else newOrd;
      rolled as char
    else
      c
  }

  /** With 26 letters every shift is undone by its negation, and a shift of 25 moves `'a'`
      to `'z'`. */
  lemma CypherCorrectedRoundTrip(s: string, shiftMag: int)
    ensures CypherCorrected(CypherCorrected(s, shiftMag), -shiftMag) == s
    ensures CypherCorrected("a", 25) == "z"
  {
    var e := CypherCorrected(s, shiftMag);
    var d := CypherCorrected(e, -shiftMag);
    forall k | 0 <= k < |s|
      ensures d[k] == s[k]
    {
      if IsLower(s[k]) {
        UndoRotation(Pos(s[k]), shiftMag);
        assert Pos(d[k]) == Pos(s[k]);
      }
    }
    assert CypherCorrected("a", 25)[0] == 'z';
  }

  lemma UndoRotation(x: int, shiftMag: int)
    requires 0 <= x < 26
    ensures ((x + shiftMag % 26) % 26 + (-shiftMag) % 26) % 26 == x
  {
  }
}
