/**
 * Text rules of the note-graph editor: the whitespace test behind Python's
 * `str.strip()`, the add-node dialog's validation, and the width a node's
 * ellipse is given from the length of its text.
 */
module NoteText {

  /** Longest text the add-node dialog accepts. */
  const MaxTextLength := 128

  /** Width of the ellipse of a node with short (or no) text. */
  const MinNodeWidth := 60

  /** Width the ellipse grows by per character of text. */
  const WidthPerChar := 7

  /**
   * Python's `str.isspace` for one character: the code points whose
   * bidirectional class is WS, B or S, or whose category is Zs.
   */
  predicate IsSpace(c: char) {
    var k := c as int;
    (0x09 <= k <= 0x0D) || (0x1C <= k <= 0x20) || k == 0x85 || k == 0xA0 ||
    k == 0x1680 || (0x2000 <= k <= 0x200A) || k == 0x2028 || k == 0x2029 ||
    k == 0x202F || k == 0x205F || k == 0x3000
  }

  /** True when some character of `text` is not whitespace. */
  predicate HasContent(text: string) {
    exists i :: 0 <= i < |text| && !IsSpace(text[i])
  }

  /** `s` without its leading whitespace. */
  function TrimLeft(s: string): (r: string)
    ensures |r| <= |s| && r == s[|s| - |r|..]
    ensures forall i :: 0 <= i < |s| - |r| ==> IsSpace(s[i])
    ensures r != [] ==> !IsSpace(r[0])
  {
    if s != [] && IsSpace(s[0]) then
      var r := TrimLeft(s[1..]);
      assert s[1..][|s| - 1 - |r|..] == s[|s| - |r|..];
      assert forall i :: 1 <= i < |s| - |r| ==> s[i] == s[1..][i - 1];
      r
    else s
  }

  /** `s` without its trailing whitespace. */
  function TrimRight(s: string): (r: string)
    ensures |r| <= |s| && r == s[..|r|]
    ensures forall i :: |r| <= i < |s| ==> IsSpace(s[i])
    ensures r != [] ==> !IsSpace(r[|r| - 1])
  {
    if s != [] && IsSpace(s[|s| - 1]) then TrimRight(s[..|s| - 1]) else s
  }

  /**
   * Python's `str.strip()` without arguments: it is empty exactly when
   * every character is whitespace, and otherwise starts and ends with a
   * non-whitespace character.
   */
  function Strip(s: string): (r: string)
    ensures r == [] <==> !HasContent(s)
    ensures r != [] ==> !IsSpace(r[0]) && !IsSpace(r[|r| - 1])
    ensures |r| <= |s|
  {
    var t := TrimLeft(s);
    assert t != [] ==> s[|s| - |t|] == t[0];
    TrimRight(t)
  }

  /** What the add-node dialog does with the text it was given. */
  datatype TextVerdict =
    | Ignored    // the dialog was cancelled or the text is blank: nothing happens
    | TooLong    // a warning is shown and nothing is added
    | Accepted   // a node is created with this text

  /**
   * The add-node test: `ok` is the dialog's confirmation; blank text is
   * ignored silently, text longer than 128 characters draws a warning.
   */
  function CheckText(ok: bool, text: string): (v: TextVerdict)
    ensures v == Accepted <==> ok && HasContent(text) && |text| <= MaxTextLength
    ensures v == TooLong <==> ok && HasContent(text) && |text| > MaxTextLength
    ensures v == Ignored <==> !ok || !HasContent(text)
  {
    if !ok || Strip(text) == [] then Ignored
    else if |text| > MaxTextLength then TooLong
    else Accepted
  }

  /** Width of a node's ellipse: 7 per character, but never below 60. */
  function NodeWidth(text: string): (w: nat)
    ensures w >= MinNodeWidth && w >= WidthPerChar * |text|
    ensures w == MinNodeWidth || w == WidthPerChar * |text|
  {
    if WidthPerChar * |text| > MinNodeWidth then WidthPerChar * |text| else MinNodeWidth
  }

  /**
   * The characters Qt's `QTextDocument::toPlainText` gives back in ASCII
   * form: a no-break space (U+00A0), a line separator (U+2028) and a
   * paragraph separator (U+2029).
   */
  predicate Replaced(c: char) {
    c as int == 0xA0 || c as int == 0x2028 || c as int == 0x2029
  }

  /** The ASCII form `toPlainText` gives a character: a space or a line feed for the replaced ones. */
  function PlainChar(c: char): (d: char)
    ensures !Replaced(d)
    ensures d == c <==> !Replaced(c)
  {
    if c as int == 0xA0 then ' '
    else if c as int == 0x2028 || c as int == 0x2029 then '\n'
    else c
  }

  /**
   * The text a node's text item reports through `toPlainText()` after
   * being given `s`, character by character; `PlainClean` states what it
   * leaves.
   */
  function Plain(s: string): string {
    seq(|s|, i requires 0 <= i < |s| => PlainChar(s[i]))
  }

  /** Reading back keeps the length, leaves no replaced character, and keeps every other character in place. */
  lemma PlainClean(s: string)
    ensures |Plain(s)| == |s|
    ensures forall i :: 0 <= i < |s| ==> !Replaced(Plain(s)[i])
    ensures forall i :: 0 <= i < |s| && !Replaced(s[i]) ==> Plain(s)[i] == s[i]
  {
  }

  /** Reading a text back twice gives what reading it once gave. */
  lemma PlainIdempotent(s: string)
    ensures Plain(Plain(s)) == Plain(s)
  {
    var p := Plain(s);
    assert forall i :: 0 <= i < |p| ==> Plain(p)[i] == p[i];
  }

  /** A text reads back unchanged exactly when it holds no replaced character. */
  lemma PlainFixed(s: string)
    ensures Plain(s) == s <==> forall i :: 0 <= i < |s| ==> !Replaced(s[i])
  {
    if forall i :: 0 <= i < |s| ==> !Replaced(s[i]) {
      assert forall i :: 0 <= i < |s| ==> Plain(s)[i] == s[i];
    }
  }

  /** Reading back keeps the length, and so the width and the 128-character test. */
  lemma PlainKeepsWidth(s: string)
    ensures NodeWidth(Plain(s)) == NodeWidth(s)
  {
  }

  /** A longer text never gives a narrower node. */
  lemma NodeWidthMonotone(a: string, b: string)
    requires |a| <= |b|
    ensures NodeWidth(a) <= NodeWidth(b)
  {
  }
}
