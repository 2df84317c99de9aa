/**
 * The list contract shared by XArrayList and DLinkedList: the error signal,
 * the configurable equality, the sequence edits every mutating operation
 * performs, and the textual rendering `[e0, e1, ...]`.
 */
module ListSpec {

  /** The single error kind: an index outside the operation's valid range. */
  datatype Error = OutOfRange

  /** Result of an operation that returns nothing but may throw. */
  datatype Outcome = Pass | Fail(error: Error)

  /** Result of an operation that returns a value but may throw. */
  datatype Result<T> = Ok(value: T) | Err(error: Error)

  datatype Option<T> = None | Some(value: T)

  /**
   * `equals(lhs, rhs, itemEqual)`: the configured predicate when there is one,
   * native equality of the element type otherwise.
   */
  function Equals<T(==)>(lhs: T, rhs: T, itemEqual: Option<(T, T) -> bool>): (r: bool)
    ensures itemEqual.None? ==> (r <==> lhs == rhs)
    ensures itemEqual.Some? ==> (r <==> itemEqual.value(lhs, rhs))
  {
    match itemEqual
    case None => lhs == rhs
    case Some(eq) => eq(lhs, rhs)
  }

  /** The contents after inserting `e` before position `i`. */
  function Inserted<T>(s: seq<T>, i: int, e: T): (r: seq<T>)
    requires 0 <= i <= |s|
    ensures |r| == |s| + 1 && r[i] == e
    ensures forall j :: 0 <= j < i ==> r[j] == s[j]
    ensures forall j :: i < j < |r| ==> r[j] == s[j - 1]
  {
    s[..i] + [e] + s[i..]
  }

  /** The contents after removing the element at position `i`. */
  function Removed<T>(s: seq<T>, i: int): (r: seq<T>)
    requires 0 <= i < |s|
    ensures |r| == |s| - 1
    ensures forall j :: 0 <= j < i ==> r[j] == s[j]
    ensures forall j :: i <= j < |r| ==> r[j] == s[j + 1]
  {
    s[..i] + s[i + 1..]
  }

  /** Removing what was just inserted restores the contents. */
  lemma RemovedInserted<T>(s: seq<T>, i: int, e: T)
    requires 0 <= i <= |s|
    ensures Removed(Inserted(s, i, e), i) == s
  {
    var t := Inserted(s, i, e);
    assert t[..i] == s[..i] && t[i + 1..] == s[i..];
    assert s == s[..i] + s[i..];
  }

  /** Putting a removed element back at its place restores the contents. */
  lemma InsertedRemoved<T>(s: seq<T>, i: int)
    requires 0 <= i < |s|
    ensures Inserted(Removed(s, i), i, s[i]) == s
  {
    var t := Removed(s, i);
    assert t[..i] == s[..i] && t[i..] == s[i + 1..];
    assert s == s[..i] + [s[i]] + s[i + 1..];
  }

  /**
   * The first position whose element equals `item` under `itemEqual`, or -1
   * when there is none: what `indexOf` returns.
   */
  function FirstMatch<T(==)>(s: seq<T>, item: T, itemEqual: Option<(T, T) -> bool>): (r: int)
    ensures -1 <= r < |s|
    ensures r == -1 <==> forall j :: 0 <= j < |s| ==> !Equals(s[j], item, itemEqual)
    ensures r != -1 ==> Equals(s[r], item, itemEqual)
    ensures forall j :: 0 <= j < r ==> !Equals(s[j], item, itemEqual)
  {
    if |s| == 0 then -1
    else if Equals(s[0], item, itemEqual) then 0
    else
      var k := FirstMatch(s[1..], item, itemEqual);
      if k == -1 then -1 else k + 1
  }

  /**
   * With no configured predicate, `indexOf` finds `item` exactly when it
   * occurs, at its first occurrence.
   */
  lemma NativeFirstMatch<T>(s: seq<T>, item: T)
    ensures FirstMatch(s, item, None) == -1 <==> item !in s
    ensures FirstMatch(s, item, None) != -1 ==>
      s[FirstMatch(s, item, None)] == item && item !in s[..FirstMatch(s, item, None)]
  {
    var r := FirstMatch(s, item, None);
    if r == -1 {
      assert forall j :: 0 <= j < |s| ==> s[j] != item;
    } else {
      assert forall j :: 0 <= j < r ==> s[..r][j] == s[j];
    }
  }

  /**
   * The contents after `removeItem(item)`: the first match removed, or
   * nothing changed when no element matches.
   */
  function RemovedFirst<T(==)>(s: seq<T>, item: T, itemEqual: Option<(T, T) -> bool>): (r: seq<T>)
  {
    var k := FirstMatch(s, item, itemEqual);
    if k == -1 then s else Removed(s, k)
  }

  /** `removeItem` changes the list exactly when `contains` holds, and then by one element. */
  lemma RemovedFirstSize<T>(s: seq<T>, item: T, itemEqual: Option<(T, T) -> bool>)
    ensures FirstMatch(s, item, itemEqual) == -1 ==> RemovedFirst(s, item, itemEqual) == s
    ensures FirstMatch(s, item, itemEqual) != -1 ==> |RemovedFirst(s, item, itemEqual)| == |s| - 1
    ensures forall j :: 0 <= j < FirstMatch(s, item, itemEqual) ==> RemovedFirst(s, item, itemEqual)[j] == s[j]
  {
  }

  /** Each element rendered by `render`, in order. */
  function Parts<T>(s: seq<T>, render: T -> string): (r: seq<string>)
  {
    seq(|s|, i requires 0 <= i < |s| => render(s[i]))
  }

  /** Each element is rendered on its own: rendering a concatenation concatenates the renderings. */
  lemma PartsAppend<T>(s: seq<T>, t: seq<T>, render: T -> string)
    ensures Parts(s + t, render) == Parts(s, render) + Parts(t, render)
  {
    assert forall i :: 0 <= i < |t| ==> (s + t)[|s| + i] == t[i];
  }

  /**
   * Parts separated by ", ", defined the way the rendering loops build the
   * text: the last part is appended after the rendering of the others.
   */
  function Join(parts: seq<string>): (r: string)
  {
    if |parts| == 0 then ""
    else if |parts| == 1 then parts[0]
    else Join(parts[..|parts| - 1]) + ", " + parts[|parts| - 1]
  }

  /** `toString`: "[" then the rendered elements separated by ", " then "]". */
  function Render<T>(s: seq<T>, render: T -> string): (r: string)
  {
    "[" + Join(Parts(s, render)) + "]"
  }

  /** An empty list renders as "[]". */
  lemma RenderEmpty<T>(render: T -> string)
    ensures Render([], render) == "[]"
  {
  }

  /** ", " followed by each of `parts` in turn. */
  function Separated(parts: seq<string>): (r: string)
  {
    if |parts| == 0 then "" else ", " + parts[0] + Separated(parts[1..])
  }

  /**
   * Independent reference for the rendering format: the first part, then
   * ", " before each later part, read front to back.
   */
  function JoinFront(parts: seq<string>): (r: string)
  {
    if |parts| == 0 then "" else parts[0] + Separated(parts[1..])
  }

  lemma {:induction false} SeparatedSnoc(parts: seq<string>, p: string)
    ensures Separated(parts + [p]) == Separated(parts) + ", " + p
  {
    if |parts| == 0 {
      assert parts + [p] == [p];
      assert Separated([p]) == ", " + p + Separated([]);
    } else {
      assert (parts + [p])[1..] == parts[1..] + [p];
      SeparatedSnoc(parts[1..], p);
    }
  }

  /** The loop-order definition agrees with the front-to-back reference. */
  lemma {:induction false} JoinAgrees(parts: seq<string>)
    ensures Join(parts) == JoinFront(parts)
  {
    if |parts| > 1 {
      var init, last := parts[..|parts| - 1], parts[|parts| - 1];
      assert parts == init + [last];
      JoinAgrees(init);
      assert init[1..] + [last] == parts[1..];
      SeparatedSnoc(init[1..], last);
    } else if |parts| == 1 {
      assert parts[1..] == [];
    }
  }

  /**
   * Rendering after a sequence of appends: "[" + r(e0) + ", " + ... + r(en-1) + "]",
   * read front to back.
   */
  lemma RenderFrontToBack<T>(s: seq<T>, render: T -> string)
    ensures Render(s, render) == "[" + JoinFront(Parts(s, render)) + "]"
  {
    JoinAgrees(Parts(s, render));
  }

  /** Rendering one more element extends the text before the closing "]". */
  lemma {:induction false} RenderSnoc<T>(s: seq<T>, x: T, render: T -> string)
    ensures Join(Parts(s + [x], render)) ==
            if |s| == 0 then render(x) else Join(Parts(s, render)) + ", " + render(x)
  {
    var p := Parts(s + [x], render);
    assert p[..|p| - 1] == Parts(s, render);
  }

  /**
   * One step of the rendering loops: with the text so far holding the first
   * `i` elements and a trailing ", " once at least one is written, appending
   * the next rendered element yields the text of the first `i + 1`.
   */
  lemma {:induction false} RenderStep<T>(s: seq<T>, i: int, render: T -> string, text: string)
    requires 0 <= i < |s|
    requires text == "[" + Join(Parts(s[..i], render)) + (if 0 < i then ", " else "")
    ensures text + render(s[i]) == "[" + Join(Parts(s[..i + 1], render))
  {
    assert s[..i + 1] == s[..i] + [s[i]];
    RenderSnoc(s[..i], s[i], render);
    if 0 < i {
      var p := Join(Parts(s[..i], render));
      assert text + render(s[i]) == "[" + (p + ", " + render(s[i]));
    }
  }
}
