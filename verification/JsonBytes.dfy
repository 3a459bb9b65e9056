/** The byte classes of the JSON lexer and its 256-entry class table. */
module JsonBytes {

  type Byte = x: int | 0 <= x < 256

  const BACKSLASH: Byte := 92
  const QUOTE: Byte := 34

  /** One of , : [ ] { } */
  predicate IsStructural(b: Byte) {
    b == 44 || b == 58 || b == 91 || b == 93 || b == 123 || b == 125
  }

  /** Tab, line feed, carriage return or space. */
  predicate IsWhitespace(b: Byte) {
    b == 9 || b == 10 || b == 13 || b == 32
  }

  /** The classes in characters, as section 2 of RFC 8259 has them. */
  lemma ClassesAre(b: Byte)
    ensures BACKSLASH as char == '\\' && QUOTE as char == '"'
    ensures IsStructural(b) <==> b as char in "[{]}:,"
    ensures IsWhitespace(b) <==> b as char in " \t\n\r"
  {}

  /** The column of the mask table that collects byte b. */
  function Class(b: Byte): nat {
    if b == BACKSLASH then 0
    else if b == QUOTE then 1
    else if IsStructural(b) then 2
    else if IsWhitespace(b) then 3
    else 4
  }

  const ROW_0: seq<nat> :=
    [4, 4, 4, 4, 4, 4, 4, 4, 4, 3, 3, 4, 4, 3, 4, 4,
     4, 4, 4, 4, 4, 4, 4, 4, 4, 4, 4, 4, 4, 4, 4, 4]
  const ROW_1: seq<nat> :=
    [3, 4, 1, 4, 4, 4, 4, 4, 4, 4, 4, 4, 2, 4, 4, 4,
     4, 4, 4, 4, 4, 4, 4, 4, 4, 4, 2, 4, 4, 4, 4, 4]
  const ROW_2: seq<nat> :=
    [4, 4, 4, 4, 4, 4, 4, 4, 4, 4, 4, 4, 4, 4, 4, 4,
     4, 4, 4, 4, 4, 4, 4, 4, 4, 4, 4, 2, 0, 2, 4, 4]
  const ROW_3: seq<nat> :=
    [4, 4, 4, 4, 4, 4, 4, 4, 4, 4, 4, 4, 4, 4, 4, 4,
     4, 4, 4, 4, 4, 4, 4, 4, 4, 4, 4, 2, 4, 2, 4, 4]
  const ROW_4: seq<nat> :=
    [4, 4, 4, 4, 4, 4, 4, 4, 4, 4, 4, 4, 4, 4, 4, 4,
     4, 4, 4, 4, 4, 4, 4, 4, 4, 4, 4, 4, 4, 4, 4, 4]
  const ROW_5: seq<nat> :=
    [4, 4, 4, 4, 4, 4, 4, 4, 4, 4, 4, 4, 4, 4, 4, 4,
     4, 4, 4, 4, 4, 4, 4, 4, 4, 4, 4, 4, 4, 4, 4, 4]
  const ROW_6: seq<nat> :=
    [4, 4, 4, 4, 4, 4, 4, 4, 4, 4, 4, 4, 4, 4, 4, 4,
     4, 4, 4, 4, 4, 4, 4, 4, 4, 4, 4, 4, 4, 4, 4, 4]
  const ROW_7: seq<nat> :=
    [4, 4, 4, 4, 4, 4, 4, 4, 4, 4, 4, 4, 4, 4, 4, 4,
     4, 4, 4, 4, 4, 4, 4, 4, 4, 4, 4, 4, 4, 4, 4, 4]

  const CODE_TABLE: seq<nat> := ROW_0 + ROW_1 + ROW_2 + ROW_3 + ROW_4 + ROW_5 + ROW_6 + ROW_7

  lemma Row0Classifies()
    ensures |ROW_0| == 32 && forall i | 0 <= i < 32 :: ROW_0[i] == Class(0 + i)
  {}

  lemma Row1Classifies()
    ensures |ROW_1| == 32 && forall i | 0 <= i < 32 :: ROW_1[i] == Class(32 + i)
  {}

  lemma Row2Classifies()
    ensures |ROW_2| == 32 && forall i | 0 <= i < 32 :: ROW_2[i] == Class(64 + i)
  {}

  lemma Row3Classifies()
    ensures |ROW_3| == 32 && forall i | 0 <= i < 32 :: ROW_3[i] == Class(96 + i)
  {}

  lemma Row4Classifies()
    ensures |ROW_4| == 32 && forall i | 0 <= i < 32 :: ROW_4[i] == Class(128 + i)
  {}

  lemma Row5Classifies()
    ensures |ROW_5| == 32 && forall i | 0 <= i < 32 :: ROW_5[i] == Class(160 + i)
  {}

  lemma Row6Classifies()
    ensures |ROW_6| == 32 && forall i | 0 <= i < 32 :: ROW_6[i] == Class(192 + i)
  {}

  lemma Row7Classifies()
    ensures |ROW_7| == 32 && forall i | 0 <= i < 32 :: ROW_7[i] == Class(224 + i)
  {}

  lemma TableRows(b: Byte)
    requires |ROW_0| == |ROW_1| == |ROW_2| == |ROW_3| == |ROW_4| == |ROW_5| == |ROW_6| == |ROW_7| == 32
    ensures |CODE_TABLE| == 256
    ensures CODE_TABLE[b] ==
      if b < 32 then ROW_0[b] else if b < 64 then ROW_1[b - 32]
      else if b < 96 then ROW_2[b - 64] else if b < 128 then ROW_3[b - 96]
      else if b < 160 then ROW_4[b - 128] else if b < 192 then ROW_5[b - 160]
      else if b < 224 then ROW_6[b - 192] else ROW_7[b - 224]
  {}

  /** The table puts every byte in its class. */
  lemma TableClassifies(b: Byte)
    ensures |CODE_TABLE| == 256 && CODE_TABLE[b] == Class(b)
  {
    Row0Classifies(); Row1Classifies(); Row2Classifies(); Row3Classifies();
    Row4Classifies(); Row5Classifies(); Row6Classifies(); Row7Classifies();
    TableRows(b);
  }
}
