/**
 * Block-template completion of the language server: when the two bytes
 * before the cursor are one of ten `<x` triggers, offer a single edit that
 * replaces them with the matching `#+BEGIN_…`/`#+END_…` block.
 *
 * The document text is its UTF-8 byte sequence; the cursor is given both as
 * an editor position (line, UTF-16 column) and as the byte offset it maps to.
 */
module Completion {
  import opened Wrappers
  import Syntax

  newtype byte = x: int | 0 <= x < 0x100
  newtype u32 = x: int | 0 <= x < 0x1_0000_0000

  datatype Position = Position(line: u32, character: u32)
  datatype Range = Range(start: Position, end: Position)
  datatype TextEdit = TextEdit(range: Range, newText: seq<byte>)
  datatype ItemKind = TextItem
  datatype CompletionItem = CompletionItem(
    labelText: seq<byte>,
    kind: Option<ItemKind>,
    insertText: Option<seq<byte>>,
    filterText: Option<seq<byte>>,
    textEdit: Option<TextEdit>)

  /** The UTF-8 encoding of one character. */
  function EncodeChar(c: char): (r: seq<byte>)
    ensures |r| == Syntax.Utf8Width(c)
    ensures (c as int) < 0x80 ==> r == [c as int as byte]
    ensures !(0x80 <= r[0] < 0xC0)
    ensures forall i :: 1 <= i < |r| ==> 0x80 <= r[i] < 0xC0
  {
    var n := c as int;
    if n < 0x80 then [n as byte]
    else if n < 0x800 then [(0xC0 + n / 0x40) as byte, (0x80 + n % 0x40) as byte]
    else if n < 0x10000 then
      [(0xE0 + n / 0x1000) as byte, (0x80 + n / 0x40 % 0x40) as byte, (0x80 + n % 0x40) as byte]
    else
      [(0xF0 + n / 0x40000) as byte, (0x80 + n / 0x1000 % 0x40) as byte,
       (0x80 + n / 0x40 % 0x40) as byte, (0x80 + n % 0x40) as byte]
  }

  /** The UTF-8 bytes of a string (the conversion of a literal into an owned `String`). */
  function Utf8(s: string): seq<byte>
  {
    if s == [] then [] else EncodeChar(s[0]) + Utf8(s[1..])
  }

  /** The bytes produced agree with the byte length the syntax tree measures text in. */
  lemma {:induction false} Utf8Length(s: string)
    ensures |Utf8(s)| == Syntax.Utf8Len(s)
  {
    if s != [] {
      Utf8Length(s[1..]);
    }
  }

  lemma {:induction false} Utf8Append(a: string, b: string)
    ensures Utf8(a + b) == Utf8(a) + Utf8(b)
  {
    if a == [] {
      assert a + b == b;
    } else {
      assert (a + b)[0] == a[0] && (a + b)[1..] == a[1..] + b;
      Utf8Append(a[1..], b);
    }
  }

  /** Every character of the text starts on a character boundary of its bytes, and so does the end. */
  lemma BoundaryAtCharStart(s: string, k: nat)
    requires k <= |s|
    ensures IsCharBoundary(Utf8(s), |Utf8(s[..k])|)
  {
    assert s == s[..k] + s[k..];
    Utf8Append(s[..k], s[k..]);
    if k < |s| {
      assert Utf8(s[k..]) == EncodeChar(s[k]) + Utf8(s[k..][1..]);
      assert Utf8(s)[|Utf8(s[..k])|] == EncodeChar(s[k])[0];
    }
  }

  /** Conversely, a character boundary within the bytes of a text is where one of its characters starts, or the end. */
  lemma {:induction false} BoundaryIsCharStart(s: string, i: nat) returns (k: nat)
    requires i <= |Utf8(s)| && IsCharBoundary(Utf8(s), i)
    ensures k <= |s| && |Utf8(s[..k])| == i
  {
    if i == 0 {
      k := 0;
      assert s[..0] == [];
    } else {
      var e := EncodeChar(s[0]);
      assert Utf8(s) == e + Utf8(s[1..]);
      forall j | 1 <= j < |e| ensures !IsCharBoundary(Utf8(s), j) {
        assert Utf8(s)[j] == e[j];
      }
      var k' := BoundaryIsCharStart(s[1..], i - |e|);
      k := k' + 1;
      assert s[..k] == [s[0]] + s[1..][..k'];
      assert Utf8(s[..k]) == e + Utf8(s[1..][..k']);
    }
  }

  // ---------------------------------------------------------------------------
  // The trigger table

  /** A trigger `<letter`, the label of the item it offers and the block it inserts. */
  datatype Trigger = Trigger(letter: char, name: string, template: string)

  /** The bytes of the key `<letter`. */
  function KeyBytes(t: Trigger): seq<byte>
  {
    [0x3C] + EncodeChar(t.letter)
  }

  function KeyString(t: Trigger): string { ['<', t.letter] }

  /** The ten recognised triggers with their item labels and inserted blocks. */
  const Triggers: seq<Trigger> := [
    Trigger('a', "ASCI export block", "#+BEGIN_EXPORT ascii\n\n#+END_EXPORT\n"),
    Trigger('c', "Center block", "#+BEGIN_CENTER\n\n#+END_CENTER\n"),
    Trigger('C', "Comment block", "#+BEGIN_COMMENT\n\n#+END_COMMENT\n"),
    Trigger('e', "Example block", "#+BEGIN_EXAMPLE\n\n#+END_EXAMPLE\n"),
    Trigger('E', "Export block", "#+BEGIN_EXPORT\n\n#+END_EXPORT\n"),
    Trigger('h', "HTML export block", "#+BEGIN_EXPORT html\n\n#+END_EXPORT\n"),
    Trigger('l', "LaTeX export block", "#+BEGIN_EXPORT latex\n\n#+END_EXPORT\n"),
    Trigger('q', "Quote block", "#+BEGIN_QUOTE\n\n#+END_QUOTE\n"),
    Trigger('s', "Source block", "#+BEGIN_SRC\n\n#+END_SRC\n"),
    Trigger('v', "Verse block", "#+BEGIN_VERSE\n\n#+END_VERSE\n")
  ]

  /** `trigger_characters`: the strings advertised to the client as completion triggers. */
  const TriggerCharacters: seq<string> :=
    ["<a", "<c", "<C", "<e", "<E", "<h", "<l", "<q", "<s", "<v", "<I"]

  /** The table's letters: ASCII and pairwise distinct. */
  lemma TriggerLetters()
    ensures |Triggers| == 10
    ensures forall i :: 0 <= i < |Triggers| ==> (Triggers[i].letter as int) < 0x80
    ensures forall i, j :: 0 <= i < j < |Triggers| ==> Triggers[i].letter != Triggers[j].letter
  {
  }

  /** The first entry of `table` whose key has the bytes `key` (the `match` on the filter text). */
  function LookupIn(table: seq<Trigger>, key: seq<byte>): (r: Option<Trigger>)
    ensures r.None? <==> forall i :: 0 <= i < |table| ==> KeyBytes(table[i]) != key
    ensures r.Some? ==> exists i :: 0 <= i < |table| && table[i] == r.value && KeyBytes(r.value) == key
  {
    if table == [] then None
    else if KeyBytes(table[0]) == key then Some(table[0])
    else
      var r := LookupIn(table[1..], key);
      assert forall i :: 1 <= i < |table| ==> table[i] == table[1..][i - 1];
      r
  }

  function Lookup(key: seq<byte>): (r: Option<Trigger>)
    ensures r.None? <==> forall i :: 0 <= i < |Triggers| ==> KeyBytes(Triggers[i]) != key
    ensures r.Some? ==> exists i :: 0 <= i < |Triggers| && Triggers[i] == r.value && KeyBytes(r.value) == key
  {
    LookupIn(Triggers, key)
  }

  // ---------------------------------------------------------------------------
  // Slicing the text

  /** `str::is_char_boundary`: the start, the end, or a byte that does not continue a UTF-8 sequence. */
  predicate IsCharBoundary(text: seq<byte>, i: nat)
  {
    i == 0 || i == |text| || (i < |text| && !(0x80 <= text[i] < 0xC0))
  }

  /** `str::get(lo..hi)`: the bytes in between, when both ends are in range and on character boundaries. */
  function Slice(text: seq<byte>, lo: nat, hi: nat): (r: Option<seq<byte>>)
    ensures r.Some? <==> lo <= hi <= |text| && IsCharBoundary(text, lo) && IsCharBoundary(text, hi)
    ensures r.Some? ==> r.value == text[lo..hi]
  {
    if lo <= hi && IsCharBoundary(text, lo) && IsCharBoundary(text, hi) && hi <= |text|
    then Some(text[lo..hi])
    else None
  }

  /**
   * On the bytes of a text, slicing between the starts of characters `a`
   * and `b` always succeeds and gives the bytes of the characters between.
   */
  lemma SliceAtCharStarts(s: string, a: nat, b: nat)
    requires a <= b <= |s|
    ensures Slice(Utf8(s), |Utf8(s[..a])|, |Utf8(s[..b])|) == Some(Utf8(s[a..b]))
  {
    BoundaryAtCharStart(s, a);
    BoundaryAtCharStart(s, b);
    assert s[..b] == s[..a] + s[a..b];
    Utf8Append(s[..a], s[a..b]);
    assert s == s[..b] + s[b..];
    Utf8Append(s[..b], s[b..]);
    var text := Utf8(s);
    assert text == Utf8(s[..a]) + Utf8(s[a..b]) + Utf8(s[b..]);
    assert text[|Utf8(s[..a])|..|Utf8(s[..b])|] == Utf8(s[a..b]);
  }

  /** `end.character - 2` on a 32-bit unsigned column, wrapping below zero. */
  function ColumnMinus2(c: u32): (r: u32)
    ensures c >= 2 ==> r as int == c as int - 2
    ensures c < 2 ==> r as int == c as int + 0x1_0000_0000 - 2
  {
    ((c as int - 2) % 0x1_0000_0000) as u32
  }

  // ---------------------------------------------------------------------------
  // The request

  /** The single item offered for trigger `t` typed just before `pos`. */
  function ItemFor(t: Trigger, filter: seq<byte>, pos: Position): CompletionItem
  {
    CompletionItem(
      Utf8(t.name),
      Some(TextItem),
      Some(Utf8(t.template)),
      Some(filter),
      Some(TextEdit(Range(Position(pos.line, ColumnMinus2(pos.character)), pos), Utf8(t.template))))
  }

  /**
   * `completion`: `offset` is the byte offset of `pos` in `text`.  No answer
   * before the second byte, when the two preceding bytes are not a valid
   * slice, or when they are not a trigger; otherwise exactly one item.
   */
  function Complete(text: seq<byte>, pos: Position, offset: nat): (r: Option<seq<CompletionItem>>)
    ensures offset < 2 ==> r.None?
    ensures r.Some? <==>
              2 <= offset <= |text| && IsCharBoundary(text, offset - 2) && IsCharBoundary(text, offset) &&
              exists i :: 0 <= i < |Triggers| && KeyBytes(Triggers[i]) == text[offset - 2..offset]
  {
    if offset < 2 then None
    else
      match Slice(text, offset - 2, offset)
      case None => None
      case Some(filter) =>
        match Lookup(filter)
        case None => None
        case Some(t) => Some([ItemFor(t, filter, pos)])
  }

  // ---------------------------------------------------------------------------
  // Properties

  /** No two table entries share a key, so the table is a function of the typed bytes. */
  lemma TriggerKeysDistinct(i: nat, j: nat)
    requires i < |Triggers| && j < |Triggers|
    requires KeyBytes(Triggers[i]) == KeyBytes(Triggers[j])
    ensures i == j
  {
    TriggerLetters();
    assert KeyBytes(Triggers[i])[1] == KeyBytes(Triggers[j])[1];
  }

  /**
   * The answer is one item labelled with the trigger's label, whose inserted
   * text and edit text are both the trigger's block template, whose filter
   * text is the two bytes typed, and whose edit range runs from two columns
   * before the cursor to the cursor on the cursor's line.
   */
  lemma CompletionItemShape(text: seq<byte>, pos: Position, offset: nat) returns (t: Trigger)
    requires 2 <= offset <= |text| && IsCharBoundary(text, offset - 2) && IsCharBoundary(text, offset)
    requires Lookup(text[offset - 2..offset]).Some?
    ensures Complete(text, pos, offset).Some?
    ensures t in Triggers && KeyBytes(t) == text[offset - 2..offset]
    ensures var items := Complete(text, pos, offset).value;
            |items| == 1 &&
            items[0].labelText == Utf8(t.name) &&
            items[0].kind == Some(TextItem) &&
            items[0].insertText == Some(Utf8(t.template)) &&
            items[0].filterText == Some(text[offset - 2..offset]) &&
            items[0].textEdit.Some? &&
            items[0].textEdit.value.newText == Utf8(t.template) &&
            items[0].textEdit.value.range.end == pos &&
            items[0].textEdit.value.range.start.line == pos.line &&
            (pos.character >= 2 ==> items[0].textEdit.value.range.start.character as int == pos.character as int - 2)
  {
    t := Lookup(text[offset - 2..offset]).value;
  }

  /** The bytes a trigger matches are the UTF-8 encoding of its two-character key. */
  lemma KeyBytesAreUtf8(t: Trigger)
    ensures KeyBytes(t) == Utf8(KeyString(t))
  {
    var k := KeyString(t);
    assert k[1..][1..] == [];
    assert Utf8(k[1..]) == EncodeChar(t.letter) + Utf8(k[1..][1..]);
  }

  /** Every key the table answers to is advertised as a trigger. */
  lemma TriggersAdvertised()
    ensures forall i :: 0 <= i < |Triggers| ==> KeyString(Triggers[i]) in TriggerCharacters
  {
  }

  /** "<I" is advertised but no completion answers to it. */
  lemma AdvertisedWithoutCompletion(text: seq<byte>, pos: Position, offset: nat)
    requires 2 <= offset <= |text| && text[offset - 2..offset] == [0x3C, 0x49]
    ensures "<I" in TriggerCharacters
    ensures Complete(text, pos, offset).None?
  {
    forall i | 0 <= i < |Triggers|
      ensures KeyBytes(Triggers[i]) != [0x3C, 0x49]
    {
      TriggerLetters();
      assert KeyBytes(Triggers[i]) == [0x3C, Triggers[i].letter as int as byte];
    }
  }
}
