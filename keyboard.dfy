/** The background-listen keyboard hook: key-downs become characters
    (VkToChar), which collect in a line buffer until Enter hands the line,
    with its white space taken out, to RecordEvent. */
module Keyboard {
  import opened Wrappers
  import opened Text

  /** Values of the WPF Key enumeration that VkToChar distinguishes:
      Enter (= Return), Space, D0..D9, A..Z and NumPad0..NumPad9. */
  const KeyEnter: int := 6
  const KeySpace: int := 18
  const KeyD0: int := 34
  const KeyA: int := 44
  const KeyNumPad0: int := 74

  predicate IsDigitKey(key: int) {
    KeyD0 <= key <= KeyD0 + 9 || KeyNumPad0 <= key <= KeyNumPad0 + 9
  }

  predicate IsLetterKey(key: int) {
    KeyA <= key <= KeyA + 25
  }

  /** The character a key stands for; '\0' for every key the hook ignores.
      Digits of either row give their digit, letters give capitals. */
  function VkToChar(key: int): (c: char)
    ensures c == '\r' <==> key == KeyEnter
    ensures c == ' ' <==> key == KeySpace
    ensures IsDigit(c) <==> IsDigitKey(key)
    ensures IsDigit(c) ==> DigitValue(c) == if key <= KeyD0 + 9 then key - KeyD0 else key - KeyNumPad0
    ensures 'A' <= c <= 'Z' <==> IsLetterKey(key)
    ensures IsLetterKey(key) ==> c == ('A' as int + (key - KeyA)) as char
    ensures c == '\0' <==> !(IsDigitKey(key) || IsLetterKey(key) || key == KeySpace || key == KeyEnter)
    ensures c != '\n'
  {
    if KeyD0 <= key <= KeyD0 + 9 then DigitChar(key - KeyD0)
    else if KeyNumPad0 <= key <= KeyNumPad0 + 9 then DigitChar(key - KeyNumPad0)
    else if KeyA <= key <= KeyA + 25 then ('A' as int + (key - KeyA)) as char
    else if key == KeySpace then ' '
    else if key == KeyEnter then '\r'
    else '\0'
  }

  /** One key-down: the new buffer, and the cleaned line handed to
      RecordEvent when the key ends a line. */
  function KeyDown(buffer: string, key: int): (r: (string, Option<string>))
    ensures VkToChar(key) == '\0' ==> r == (buffer, None)
    ensures key == KeyEnter ==> r == ([], Some(RemoveWhiteSpace(buffer)))
    ensures VkToChar(key) != '\0' && key != KeyEnter ==> r == (buffer + [VkToChar(key)], None)
  {
    var c := VkToChar(key);
    if c == '\0' then (buffer, None)
    else if c == '\r' || c == '\n' then ([], Some(RemoveWhiteSpace(buffer)))
    else (buffer + [c], None)
  }

  /** A run of key-downs: the buffer left at the end and every line handed on. */
  function Feed(buffer: string, keys: seq<int>): (r: (string, seq<string>))
    ensures forall j, i :: 0 <= j < |r.1| && 0 <= i < |r.1[j]| ==> !IsWhiteSpace(r.1[j][i])
    ensures |r.1| <= |keys|
    ensures KeyEnter !in keys ==> r.1 == [] && |r.0| >= |buffer| && r.0[..|buffer|] == buffer
    decreases |keys|
  {
    if keys == [] then (buffer, [])
    else
      var (b, line) := KeyDown(buffer, keys[0]);
      var (rest, lines) := Feed(b, keys[1..]);
      (rest, (if line.Some? then [line.value] else []) + lines)
  }

  /** The top-row keys a scanner types for a string of digits. */
  function DigitKeys(ds: string): (keys: seq<int>)
    requires AllDigits(ds)
    ensures |keys| == |ds|
    ensures forall i :: 0 <= i < |ds| ==> keys[i] == KeyD0 + DigitValue(ds[i])
  {
    if ds == [] then [] else [KeyD0 + DigitValue(ds[0])] + DigitKeys(ds[1..])
  }

  lemma {:induction false} FeedDigits(buffer: string, ds: string, tail: seq<int>)
    requires AllDigits(ds)
    ensures Feed(buffer, DigitKeys(ds) + tail) == Feed(buffer + ds, tail)
    decreases |ds|
  {
    if ds == [] {
      assert DigitKeys(ds) + tail == tail;
      assert buffer + ds == buffer;
    } else {
      var keys := DigitKeys(ds) + tail;
      assert VkToChar(keys[0]) == ds[0] by {
        assert keys[0] == KeyD0 + DigitValue(ds[0]);
      }
      calc {
        Feed(buffer, keys);
        { FeedSilentKey(buffer, keys); }
        Feed(buffer + [ds[0]], keys[1..]);
        { assert keys[1..] == DigitKeys(ds[1..]) + tail; }
        Feed(buffer + [ds[0]], DigitKeys(ds[1..]) + tail);
        { FeedDigits(buffer + [ds[0]], ds[1..], tail); }
        Feed(buffer + [ds[0]] + ds[1..], tail);
        { assert buffer + [ds[0]] + ds[1..] == buffer + ds; }
        Feed(buffer + ds, tail);
      }
    }
  }

  /** A key that types a character hands on no line: the rest of the run
      continues from the longer buffer. */
  lemma FeedSilentKey(buffer: string, keys: seq<int>)
    requires keys != [] && VkToChar(keys[0]) != '\0' && keys[0] != KeyEnter
    ensures Feed(buffer, keys) == Feed(buffer + [VkToChar(keys[0])], keys[1..])
  {
    var lines := Feed(buffer + [VkToChar(keys[0])], keys[1..]).1;
    assert [] + lines == lines;
  }

  /** A scanner that types a card's digits and Enter hands on exactly one
      line: whatever was left in the buffer followed by the digits, with
      white space taken out; the buffer is empty afterwards. */
  lemma ScanLine(buffer: string, ds: string)
    requires AllDigits(ds)
    ensures Feed(buffer, DigitKeys(ds) + [KeyEnter]) == ([], [RemoveWhiteSpace(buffer + ds)])
  {
    FeedDigits(buffer, ds, [KeyEnter]);
    var b := buffer + ds;
    assert KeyDown(b, KeyEnter) == ([], Some(RemoveWhiteSpace(b)));
    assert [KeyEnter][1..] == [];
    assert Feed([], []) == ([], []);
    assert Feed(b, [KeyEnter]) == ([], [RemoveWhiteSpace(b)] + []);
    assert [RemoveWhiteSpace(b)] + [] == [RemoveWhiteSpace(b)];
  }
}
