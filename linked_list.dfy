/**
 * The singly linked stack of `LinkedList.rs`. A node owns the rest of the
 * chain through a box, so no node is ever shared: the chain is a value, and
 * only the list's two fields, `head` and `size`, change in place.
 */
module LinkedList {

  import opened Common

  /** A node: its value and the chain it owns. */
  datatype Node = Node(value: u32, next: Option<Node>)

  /** The values of a chain, from its first node to its last. */
  function Values(chain: Option<Node>): seq<u32>
    decreases chain
  {
    match chain
    case None => []
    case Some(node) => [node.value] + Values(node.next)
  }

  class List {
    var head: Option<Node>
    var size: nat

    /** The values from head to tail. */
    ghost function Contents(): seq<u32>
      reads this
    {
      Values(head)
    }

    /** The stored size counts the nodes reachable from the head. */
    ghost predicate Valid()
      reads this
    {
      size == |Values(head)|
    }

    constructor ()
      ensures Valid() && head == None && size == 0
      ensures Contents() == []
    {
      head := None;
      size := 0;
    }

    function GetSize(): (n: nat)
      reads this
      requires Valid()
      ensures n == |Contents()|
    {
      size
    }

    function IsEmpty(): (b: bool)
      reads this
      requires Valid()
      ensures b <==> Contents() == []
      ensures b <==> GetSize() == 0
    {
      GetSize() == 0
    }

    /** Puts `value` in a new head node that owns the old chain. */
    method Push(value: u32)
      requires Valid()
      modifies this
      ensures Valid()
      ensures head == Some(Node(value, old(head)))
      ensures size == old(size) + 1
      ensures Contents() == [value] + old(Contents())
    {
      var newNode := Node(value, head);
      head := Some(newNode);
      size := size + 1;
    }

    /** Takes the head node off, giving its value; on an empty list changes nothing. */
    method Pop() returns (r: Option<u32>)
      requires Valid()
      modifies this
      ensures Valid()
      ensures old(head) == None ==> r == None && head == old(head) && size == old(size)
      ensures old(head) != None ==>
        r == Some(old(head).value.value) && head == old(head).value.next && size == old(size) - 1
      ensures old(Contents()) != [] ==>
        r == Some(old(Contents())[0]) && Contents() == old(Contents())[1..]
    {
      match head
      case None =>
        return None;
      case Some(node) =>
        head := node.next;
        size := size - 1;
        return Some(node.value);
    }

    /** Walks the chain from the head, appending a space and each value in decimal. */
    method ToString() returns (text: string)
      requires Valid()
      ensures text == Render(Contents())
    {
      var current := head;
      var result := "";
      while current.Some?
        invariant result + Render(Values(current)) == Render(Values(head))
        decreases current
      {
        var node := current.value;
        result := result + " " + Decimal(node.value);
        current := node.next;
      }
      text := result;
    }
  }

  /** Popping right after pushing gives back the pushed value and the earlier list. */
  method PushThenPop(list: List, v: u32) returns (r: Option<u32>)
    requires list.Valid()
    modifies list
    ensures list.Valid() && r == Some(v)
    ensures list.head == old(list.head) && list.size == old(list.size)
  {
    list.Push(v);
    r := list.Pop();
  }

  // ---------------------------------------------------------------------------
  // Rendering
  // ---------------------------------------------------------------------------

  function DigitChar(d: nat): char
    requires d < 10
  {
    "0123456789"[d]
  }

  predicate IsDigit(c: char) {
    '0' <= c <= '9'
  }

  /** Decimal digits of `n`, most significant first, with no leading zeros. */
  function Decimal(n: nat): (s: string)
    ensures s != []
    ensures forall i :: 0 <= i < |s| ==> IsDigit(s[i])
  {
    if n < 10 then [DigitChar(n)] else Decimal(n / 10) + [DigitChar(n % 10)]
  }

  /** The number written by the digits `s`. */
  function ParseDecimal(s: string): nat {
    if s == [] then 0
    else
      var c := s[|s| - 1];
      ParseDecimal(s[..|s| - 1]) * 10 + (if IsDigit(c) then (c - '0') as nat else 0)
  }

  lemma DigitCharValue(d: nat)
    requires d < 10
    ensures (DigitChar(d) - '0') as nat == d
  {
  }

  /** Reading back the decimal digits of `n` gives `n`. */
  lemma {:induction false} DecimalRoundTrip(n: nat)
    ensures ParseDecimal(Decimal(n)) == n
  {
    if n < 10 {
      DigitCharValue(n);
    } else {
      DecimalRoundTrip(n / 10);
      DigitCharValue(n % 10);
      var s := Decimal(n);
      assert s[..|s| - 1] == Decimal(n / 10);
    }
  }

  /** The `Display` text: each value, head first, preceded by one space. */
  function Render(vs: seq<u32>): string {
    if vs == [] then "" else " " + Decimal(vs[0]) + Render(vs[1..])
  }

  lemma RenderOne(v: u32, rest: seq<u32>)
    ensures Render([v] + rest) == " " + Decimal(v) + Render(rest)
  {
    assert ([v] + rest)[1..] == rest;
  }

  /** The number of leading digits of `s`. */
  function DigitRun(s: string): (k: nat)
    ensures k <= |s|
  {
    if s != [] && IsDigit(s[0]) then 1 + DigitRun(s[1..]) else 0
  }

  lemma {:induction false} DigitRunAppend(d: string, rest: string)
    requires forall i :: 0 <= i < |d| ==> IsDigit(d[i])
    requires rest == [] || !IsDigit(rest[0])
    ensures DigitRun(d + rest) == |d|
  {
    if d != [] {
      assert (d + rest)[1..] == d[1..] + rest;
      DigitRunAppend(d[1..], rest);
    } else {
      assert d + rest == rest;
    }
  }

  /**
   * Reads a rendered text back: skip one separator, read the run of digits
   * after it as a value, and continue after the run.
   */
  function ParseRendered(text: string): seq<nat>
    decreases |text|
  {
    if text == [] then []
    else
      var k := DigitRun(text[1..]);
      [ParseDecimal(text[1..1 + k])] + ParseRendered(text[1 + k..])
  }

  /** The rendered text determines the list: reading it back gives the values. */
  lemma {:induction false} RenderRoundTrip(vs: seq<u32>)
    ensures ParseRendered(Render(vs)) == vs
  {
    if vs != [] {
      var d := Decimal(vs[0]);
      var rest := Render(vs[1..]);
      var text := Render(vs);
      assert text == [' '] + (d + rest);
      assert text[1..] == d + rest;
      assert rest == [] || rest[0] == ' ';
      DigitRunAppend(d, rest);
      assert text[1..1 + |d|] == d;
      assert text[1 + |d|..] == rest;
      DecimalRoundTrip(vs[0]);
      RenderRoundTrip(vs[1..]);
    }
  }

  /**
   * The program's demonstration: a new list is empty; after pushing 1 to 9 it
   * renders the values 9 down to 1, size 9; popping gives 9 and leaves 8 down to 1,
   * size 8.
   */
  method Demo() returns (wasEmpty: bool, before: string, sizeBefore: nat, top: Option<u32>, after: string, size: nat)
    ensures wasEmpty
    ensures before == Render([9, 8, 7, 6, 5, 4, 3, 2, 1])
    ensures sizeBefore == 9
    ensures top == Some(9)
    ensures after == Render([8, 7, 6, 5, 4, 3, 2, 1])
    ensures size == 8
  {
    var list := new List();
    wasEmpty := list.IsEmpty();
    for i := 1 to 10
      invariant list.Valid()
      invariant |list.Contents()| == i - 1
      invariant forall p :: 0 <= p < i - 1 ==> list.Contents()[p] == i - 1 - p
    {
      list.Push(i);
    }
    assert list.Contents() == [9, 8, 7, 6, 5, 4, 3, 2, 1];
    before := list.ToString();
    sizeBefore := list.GetSize();
    top := list.Pop();
    after := list.ToString();
    size := list.GetSize();
  }
}
