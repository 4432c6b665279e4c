/** The serial-line decoder: the body of the `parser.on("data")` handler up
    to the point where a line has become a reading or has been dropped. A
    line such as `distance:12.5,tds:300` is trimmed and split on commas; a
    part that starts with `distance:` sets the distance, one that starts with
    `tds:` sets the TDS, each to `parseFloat` of the text after its first
    colon; the line yields a reading only when both are set and neither is
    NaN. */
module Decoder {
  import opened Wrappers
  import opened JsText
  import opened JsNumber
  import opened Readings

  const DistanceKey: string := "distance:"
  const TdsKey: string := "tds:"

  /** A field variable of the handler: `null` until a part sets it, then
      whatever `parseFloat` gave, NaN (`None`) included. */
  datatype Slot = Null | Parsed(number: Option<Num>)

  /** The comma-separated parts of a line after `trim`. */
  function Parts(line: string): seq<string> {
    Split(Trim(line), ',')
  }

  /** `parseFloat(part.split(":")[1])`: the number in the text between the
      first and the second colon. Without a colon the index gives
      `undefined`, which parses to NaN. */
  function FieldValue(part: string): Option<Num> {
    var pieces := Split(part, ':');
    if |pieces| > 1 then ParseFloat(pieces[1]) else None
  }

  /** Where the handler's variable for `key` ends up after its loop, stated
      from the end: the last part that starts with `key` decides; `null` if
      no part does. */
  function LastMatch(parts: seq<string>, key: string): Slot {
    if parts == [] then Null
    else if StartsWith(parts[|parts| - 1], key) then Parsed(FieldValue(parts[|parts| - 1]))
    else LastMatch(parts[..|parts| - 1], key)
  }

  /** The reading a line yields, stamped with the receipt time `now`, or
      `None` when the handler drops the line. */
  function Decode(line: string, now: int): Option<Reading> {
    var parts := Parts(line);
    Complete(LastMatch(parts, DistanceKey), LastMatch(parts, TdsKey), now)
  }

  /** The check after the loop: both variables set and neither NaN. */
  function Complete(distance: Slot, tds: Slot, now: int): Option<Reading> {
    if distance.Parsed? && tds.Parsed? && distance.number.Some? && tds.number.Some?
    then Some(Reading(distance.number.value, tds.number.value, now))
    else None
  }

  /** The handler: trim and split the line, run the loop, then accept the
      line only when both variables hold numbers. */
  method DecodeLine(line: string, now: int) returns (reading: Option<Reading>)
    ensures reading == Decode(line, now)
  {
    var parts := Parts(line);
    var distance, tds := ScanParts(parts);
    if distance != Null && tds != Null && distance.number != None && tds.number != None {
      reading := Some(Reading(distance.number.value, tds.number.value, now));
    } else {
      reading := None;
    }
  }

  /** The handler's `forEach` loop: walk the parts once, front to back, and
      let each recognised part overwrite its variable. */
  method ScanParts(parts: seq<string>) returns (distance: Slot, tds: Slot)
    ensures distance == LastMatch(parts, DistanceKey) && tds == LastMatch(parts, TdsKey)
  {
    distance, tds := Null, Null;
    for i := 0 to |parts|
      invariant distance == LastMatch(parts[..i], DistanceKey)
      invariant tds == LastMatch(parts[..i], TdsKey)
    {
      var part := parts[i];
      LastMatchStep(parts, i, DistanceKey);
      LastMatchStep(parts, i, TdsKey);
      if StartsWith(part, DistanceKey) {
        KeysExclusive(part);
        distance := Parsed(FieldValue(part));
      } else if StartsWith(part, TdsKey) {
        tds := Parsed(FieldValue(part));
      }
    }
    assert parts[..|parts|] == parts;
  }

  /** No part starts with both keys. */
  lemma KeysExclusive(part: string)
    ensures !(StartsWith(part, DistanceKey) && StartsWith(part, TdsKey))
  {
    if part != [] {
      assert DistanceKey[0] == 'd' && TdsKey[0] == 't';
    }
  }

  /** One more part: it overwrites the variable exactly when it starts
      with the key. */
  lemma LastMatchStep(parts: seq<string>, i: int, key: string)
    requires 0 <= i < |parts|
    ensures LastMatch(parts[..i + 1], key)
            == if StartsWith(parts[i], key) then Parsed(FieldValue(parts[i])) else LastMatch(parts[..i], key)
  {
    assert parts[..i + 1][..i] == parts[..i];
  }

  /** The parts that start with `key`, in line order. */
  function Matching(parts: seq<string>, key: string): (m: seq<string>)
    ensures |m| <= |parts|
  {
    if parts == [] then []
    else Matching(parts[..|parts| - 1], key)
         + (if StartsWith(parts[|parts| - 1], key) then [parts[|parts| - 1]] else [])
  }

  /** Part `i` is the last one that starts with `key`. */
  predicate IsLastWith(parts: seq<string>, i: int, key: string) {
    0 <= i < |parts| && StartsWith(parts[i], key)
    && forall j :: i < j < |parts| ==> !StartsWith(parts[j], key)
  }

  /** Last occurrence wins: the variable holds the value of the last part
      that starts with `key`. */
  lemma {:induction false} LastMatchFindsLast(parts: seq<string>, key: string, i: int)
    requires IsLastWith(parts, i, key)
    ensures LastMatch(parts, key) == Parsed(FieldValue(parts[i]))
  {
    var n := |parts| - 1;
    if i < n {
      var front := parts[..n];
      assert !StartsWith(parts[n], key);
      assert LastMatch(parts, key) == LastMatch(front, key);
      assert front[i] == parts[i];
      assert forall j :: i < j < |front| ==> front[j] == parts[j];
      LastMatchFindsLast(front, key, i);
    }
  }

  /** The variable stays `null` exactly when no part starts with `key`. */
  lemma {:induction false} LastMatchNull(parts: seq<string>, key: string)
    ensures LastMatch(parts, key) == Null <==> forall i :: 0 <= i < |parts| ==> !StartsWith(parts[i], key)
  {
    if parts != [] {
      var n := |parts| - 1;
      LastMatchNull(parts[..n], key);
      assert forall i :: 0 <= i < n ==> parts[..n][i] == parts[i];
    }
  }

  /** Only the parts that start with `key`, and their order, matter. */
  lemma {:induction false} LastMatchOfMatching(parts: seq<string>, key: string)
    ensures var m := Matching(parts, key);
            LastMatch(parts, key) == if m == [] then Null else Parsed(FieldValue(m[|m| - 1]))
  {
    if parts != [] {
      LastMatchOfMatching(parts[..|parts| - 1], key);
    }
  }

  /** Field order does not matter: two lines whose `distance:` parts agree
      and whose `tds:` parts agree, each in their own order, decode alike,
      however those parts are interleaved with each other and with
      unrecognised parts. */
  lemma DecodeDependsOnlyOnMatchingParts(line1: string, line2: string, now: int)
    requires Matching(Parts(line1), DistanceKey) == Matching(Parts(line2), DistanceKey)
    requires Matching(Parts(line1), TdsKey) == Matching(Parts(line2), TdsKey)
    ensures Decode(line1, now) == Decode(line2, now)
  {
    LastMatchOfMatching(Parts(line1), DistanceKey);
    LastMatchOfMatching(Parts(line2), DistanceKey);
    LastMatchOfMatching(Parts(line1), TdsKey);
    LastMatchOfMatching(Parts(line2), TdsKey);
  }

  /** A line whose last `distance:` part and last `tds:` part both hold a
      number is accepted, with those two numbers and the receipt time. */
  lemma DecodeAccepts(line: string, now: int, i: int, j: int)
    requires IsLastWith(Parts(line), i, DistanceKey) && IsLastWith(Parts(line), j, TdsKey)
    requires FieldValue(Parts(line)[i]).Some? && FieldValue(Parts(line)[j]).Some?
    ensures Decode(line, now)
            == Some(Reading(FieldValue(Parts(line)[i]).value, FieldValue(Parts(line)[j]).value, now))
  {
    LastMatchFindsLast(Parts(line), DistanceKey, i);
    LastMatchFindsLast(Parts(line), TdsKey, j);
  }

  /** A line without any part that starts with one of the two keys is
      dropped. */
  lemma DecodeRejectsMissingField(line: string, now: int, key: string)
    requires key == DistanceKey || key == TdsKey
    requires forall i :: 0 <= i < |Parts(line)| ==> !StartsWith(Parts(line)[i], key)
    ensures Decode(line, now) == None
  {
    LastMatchNull(Parts(line), key);
  }

  /** A line whose last part for one of the two keys does not hold a number
      is dropped, whatever came earlier for that key. */
  lemma DecodeRejectsNaN(line: string, now: int, key: string, i: int)
    requires key == DistanceKey || key == TdsKey
    requires IsLastWith(Parts(line), i, key) && FieldValue(Parts(line)[i]) == None
    ensures Decode(line, now) == None
  {
    LastMatchFindsLast(Parts(line), key, i);
  }

  /** Each key is a colon-free name followed by one colon. */
  lemma KeyShape(key: string, rest: string)
    requires key == DistanceKey || key == TdsKey
    ensures key + rest == key[..|key| - 1] + [':'] + rest && ':' !in key[..|key| - 1]
  {
  }

  lemma FieldValueAfterName(name: string, rest: string)
    requires ':' !in name
    ensures FieldValue(name + [':'] + rest) == ParseFloat(Split(rest, ':')[0])
  {
    SplitAt(name, rest, ':');
  }

  /** The value of a recognised part is `parseFloat` of the text after the
      key up to the next colon, if there is one. */
  lemma FieldValueAfterKey(key: string, rest: string)
    requires key == DistanceKey || key == TdsKey
    ensures FieldValue(key + rest)
            == ParseFloat(if ':' in rest then rest[..FirstIndex(rest, ':')] else rest)
  {
    KeyShape(key, rest);
    FieldValueAfterName(key[..|key| - 1], rest);
    SplitFirstPiece(rest, ':');
  }

  /** White space around a line, such as the carriage return of a CRLF line
      end, does not change what it decodes to. */
  lemma DecodeIgnoresSurroundingWhiteSpace(before: string, line: string, after: string, now: int)
    requires AllWhiteSpace(before) && AllWhiteSpace(after)
    ensures Decode(before + line + after, now) == Decode(line, now)
  {
    TrimIgnoresSurroundingWhiteSpace(before, line, after);
  }

  /** A line of two comma-free fields that neither starts nor ends with
      white space splits into exactly those two fields. */
  lemma TwoFieldLine(x: string, y: string)
    requires ',' !in x && ',' !in y
    requires x != [] && !IsWhiteSpace(x[0]) && y != [] && !IsWhiteSpace(y[|y| - 1])
    ensures Parts(x + "," + y) == [x, y]
  {
    var line := x + "," + y;
    assert line[0] == x[0] && line[|line| - 1] == y[|y| - 1];
    TrimOfTrimmed(line);
    assert line == x + [','] + y;
    SplitAt(x, y, ',');
  }

  /** A part made of a key and its value starts with that key and not
      with the other one. */
  lemma KeyedPart(key: string, rest: string)
    requires key == DistanceKey || key == TdsKey
    ensures StartsWith(key + rest, key)
    ensures !StartsWith(key + rest, if key == DistanceKey then TdsKey else DistanceKey)
  {
    StartsWithIsPrefix(key + rest, key);
    assert (key + rest)[0] == key[0];
  }

  /** The handler's loop over a line of two parts. */
  lemma LastMatchPair(a: string, b: string, key: string)
    ensures LastMatch([a, b], key)
            == if StartsWith(b, key) then Parsed(FieldValue(b))
               else if StartsWith(a, key) then Parsed(FieldValue(a))
               else Null
  {
    assert [a, b][..1] == [a];
    assert [a][..0] == [];
    assert LastMatch([a], key) == if StartsWith(a, key) then Parsed(FieldValue(a)) else Null;
  }

  /** A line that splits into two parts decodes from those two parts. */
  lemma DecodePair(line: string, a: string, b: string, now: int)
    requires Parts(line) == [a, b]
    ensures Decode(line, now) == Complete(LastMatch([a, b], DistanceKey), LastMatch([a, b], TdsKey), now)
  {
  }

  /** The parts of a line of two keyed fields. */
  lemma KeyedPairParts(k1: string, x: string, k2: string, y: string)
    requires k1 in {DistanceKey, TdsKey} && k2 in {DistanceKey, TdsKey}
    requires ',' !in x && ',' !in y
    requires y == [] || !IsWhiteSpace(y[|y| - 1])
    ensures Parts(k1 + x + "," + k2 + y) == [k1 + x, k2 + y]
  {
    var a, b := k1 + x, k2 + y;
    assert a[0] == k1[0];
    assert b[|b| - 1] == if y == [] then ':' else y[|y| - 1];
    assert k1 + x + "," + k2 + y == a + "," + b;
    TwoFieldLine(a, b);
  }

  /** A line of a `distance:` field and a `tds:` field, in either order,
      decodes from those two fields. */
  lemma DecodeKeyedPair(k1: string, x: string, k2: string, y: string, now: int)
    requires (k1, k2) == (DistanceKey, TdsKey) || (k1, k2) == (TdsKey, DistanceKey)
    requires ',' !in x && ',' !in y
    requires y == [] || !IsWhiteSpace(y[|y| - 1])
    ensures var d, t := if k1 == DistanceKey then x else y, if k1 == DistanceKey then y else x;
            Decode(k1 + x + "," + k2 + y, now)
            == Complete(Parsed(FieldValue(DistanceKey + d)), Parsed(FieldValue(TdsKey + t)), now)
  {
    var a, b := k1 + x, k2 + y;
    var line := k1 + x + "," + k2 + y;
    KeyedPairParts(k1, x, k2, y);
    DecodePair(line, a, b, now);
    KeyedPart(k1, x);
    KeyedPart(k2, y);
    LastMatchPair(a, b, DistanceKey);
    LastMatchPair(a, b, TdsKey);
  }

  /** The two fields may come in either order. */
  lemma DecodeFieldsSwapped(x: string, y: string, now: int)
    requires ',' !in x && ',' !in y
    requires x == [] || !IsWhiteSpace(x[|x| - 1])
    requires y == [] || !IsWhiteSpace(y[|y| - 1])
    ensures Decode(DistanceKey + x + "," + TdsKey + y, now)
            == Decode(TdsKey + y + "," + DistanceKey + x, now)
  {
    DecodeKeyedPair(DistanceKey, x, TdsKey, y, now);
    DecodeKeyedPair(TdsKey, y, DistanceKey, x, now);
  }

  /** Prefix matching is exact: a space after the comma hides the `tds:`
      field, so the line is dropped. */
  lemma DecodeRejectsSpaceAfterComma(x: string, y: string, now: int)
    requires ',' !in x && ',' !in y
    requires y == [] || !IsWhiteSpace(y[|y| - 1])
    ensures Decode(DistanceKey + x + ", " + TdsKey + y, now) == None
  {
    var a, b := DistanceKey + x, " " + TdsKey + y;
    var line := DistanceKey + x + ", " + TdsKey + y;
    assert a[0] == 'd' && b[0] == ' ' && TdsKey[0] == 't';
    assert b[|b| - 1] == if y == [] then ':' else y[|y| - 1];
    assert line == a + "," + b;
    TwoFieldLine(a, b);
    DecodePair(line, a, b, now);
    KeyedPart(DistanceKey, x);
    LastMatchPair(a, b, TdsKey);
  }

  /** A numeral's characters include no comma and no colon. */
  lemma NumeralLacksDelimiters(whole: string, fraction: string, rest: string)
    requires AllDigits(whole) && AllDigits(fraction) && (rest == [] || rest == " ")
    ensures var x := whole + "." + fraction + rest; ',' !in x && ':' !in x
  {
    assert ',' !in whole && ':' !in whole;
    assert ',' !in fraction && ':' !in fraction;
  }

  lemma SpacedLine(x: string, y: string)
    ensures DistanceKey + x + " ," + TdsKey + y == DistanceKey + (x + " ") + "," + TdsKey + y
  {
  }

  /** Only the whole line is trimmed, but `parseFloat` stops at the end of
      the numeral: a space before the comma is harmless, and the line
      decodes as it would without it. */
  lemma DecodeAcceptsSpaceBeforeComma(whole: string, fraction: string, y: string, now: int)
    requires AllDigits(whole) && AllDigits(fraction) && (whole != [] || fraction != [])
    requires ',' !in y && (y == [] || !IsWhiteSpace(y[|y| - 1]))
    ensures Decode(DistanceKey + whole + "." + fraction + " ," + TdsKey + y, now)
            == Complete(Parsed(Some(Finite(NumeralValue(whole, fraction)))), Parsed(FieldValue(TdsKey + y)), now)
    ensures Decode(DistanceKey + whole + "." + fraction + " ," + TdsKey + y, now)
            == Decode(DistanceKey + whole + "." + fraction + "," + TdsKey + y, now)
  {
    var x := whole + "." + fraction;
    assert DistanceKey + whole + "." + fraction == DistanceKey + x;
    SpacedLine(x, y);
    NumeralLacksDelimiters(whole, fraction, " ");
    NumeralLacksDelimiters(whole, fraction, []);
    assert x + [] == x;
    DecodeKeyedPair(DistanceKey, x + " ", TdsKey, y, now);
    DecodeKeyedPair(DistanceKey, x, TdsKey, y, now);
    FieldValueAfterKey(DistanceKey, x + " ");
    FieldValueAfterKey(DistanceKey, x);
    assert " "[0] == ' ';
    ParseFloatDecimalIgnoresRest(whole, fraction, " ");
    ParseFloatDecimal(whole, fraction);
  }

  lemma SpacedIntegerLine(whole: string, y: string)
    ensures DistanceKey + whole + " ," + TdsKey + y == DistanceKey + (whole + " ") + "," + TdsKey + y
  {
  }

  /** The same for a `distance:` numeral without a point: `parseFloat`
      stops at the space, so the line decodes as it would without it. */
  lemma DecodeAcceptsSpaceAfterInteger(whole: string, y: string, now: int)
    requires AllDigits(whole) && whole != []
    requires ',' !in y && (y == [] || !IsWhiteSpace(y[|y| - 1]))
    ensures Decode(DistanceKey + whole + " ," + TdsKey + y, now)
            == Complete(Parsed(Some(Finite(DigitsValue(whole) as real))), Parsed(FieldValue(TdsKey + y)), now)
    ensures Decode(DistanceKey + whole + " ," + TdsKey + y, now)
            == Decode(DistanceKey + whole + "," + TdsKey + y, now)
  {
    SpacedIntegerLine(whole, y);
    assert ',' !in whole && ':' !in whole;
    assert ',' !in whole + " " && ':' !in whole + " ";
    DecodeKeyedPair(DistanceKey, whole + " ", TdsKey, y, now);
    DecodeKeyedPair(DistanceKey, whole, TdsKey, y, now);
    FieldValueAfterKey(DistanceKey, whole + " ");
    FieldValueAfterKey(DistanceKey, whole);
    assert " "[0] == ' ';
    ParseFloatIgnoresRest(whole, " ");
    ParseFloatInteger(whole);
  }

  lemma DistanceDigits()
    ensures NumeralValue("12", "5") == 12.5
  {
    assert DigitsValue("1") == 1 && DigitsValue("12") == 12;
    assert DigitsValue("5") == 5 && Pow10(1) == 10;
  }

  lemma DistanceNumeral()
    ensures ParseFloat("12.5") == Some(Finite(12.5))
  {
    assert "12.5" == "12" + "." + "5";
    ParseFloatDecimal("12", "5");
    DistanceDigits();
  }

  lemma DistanceExample()
    ensures FieldValue(DistanceKey + "12.5") == Some(Finite(12.5))
  {
    FieldValueAfterKey(DistanceKey, "12.5");
    assert ':' !in "12.5";
    DistanceNumeral();
  }

  lemma TdsDigits()
    ensures AllDigits("300") && DigitsValue("300") == 300
  {
    assert DigitsValue("3") == 3 && DigitsValue("30") == 30;
  }

  lemma TdsNumeral()
    ensures ParseFloat("300") == Some(Finite(300.0))
  {
    TdsDigits();
    ParseFloatInteger("300");
  }

  lemma TdsExample()
    ensures FieldValue(TdsKey + "300") == Some(Finite(300.0))
  {
    FieldValueAfterKey(TdsKey, "300");
    assert ':' !in "300";
    TdsNumeral();
  }

  /** The line format the device prints decodes to its two numbers. */
  lemma DecodeExample(now: int)
    ensures Decode("distance:12.5,tds:300", now) == Some(Reading(Finite(12.5), Finite(300.0), now))
  {
    assert "distance:12.5,tds:300" == DistanceKey + "12.5" + "," + TdsKey + "300";
    DecodeKeyedPair(DistanceKey, "12.5", TdsKey, "300", now);
    DistanceExample();
    TdsExample();
  }

  lemma SpacedDistanceNumeral()
    ensures ParseFloat("12.5 ") == Some(Finite(12.5))
  {
    assert "12.5 " == "12" + "." + "5" + " ";
    ParseFloatDecimalIgnoresRest("12", "5", " ");
    DistanceDigits();
  }

  lemma SpacedDistanceExample()
    ensures FieldValue(DistanceKey + "12.5 ") == Some(Finite(12.5))
  {
    FieldValueAfterKey(DistanceKey, "12.5 ");
    assert ':' !in "12.5 ";
    SpacedDistanceNumeral();
  }

  /** A space before the comma: `distance:12.5 ,tds:300` is still accepted. */
  lemma DecodeSpaceBeforeCommaExample(now: int)
    ensures Decode("distance:12.5 ,tds:300", now) == Some(Reading(Finite(12.5), Finite(300.0), now))
  {
    assert "distance:12.5 ,tds:300" == DistanceKey + "12.5 " + "," + TdsKey + "300";
    DecodeKeyedPair(DistanceKey, "12.5 ", TdsKey, "300", now);
    SpacedDistanceExample();
    TdsExample();
  }
}
