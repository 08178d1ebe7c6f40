/**
 * The HTML side of the web console, with the DOM replaced by plain values.
 *
 * A rendered page is a finite map from (tag, name attribute) to the element's
 * `value`; `doc.querySelector('INPUT[name="…"]')` becomes a lookup in it.
 * Repeating groups use the bracketed naming `GROUP[field][i]`, and a group is
 * read by probing i = 0, 1, 2, … until the first absent element.
 */
module Forms {
  import opened Wrappers
  import opened Strings

  datatype Tag = Input | Select

  datatype Element = Element(tag: Tag, name: string)

  type Document = map<Element, string>

  /**
   * The result of matching the text of `FONT.userinfo12` against the
   * address pattern: no match, or the IPv4 and IPv6 captures and the
   * optional "Last IP notify" capture (None when the "Please" branch matched).
   */
  datatype UserInfo = NoMatch | Matched(v4: string, v6: string, notify: Option<string>)

  /** A parsed page: the `FONT.userinfo12` element (if any) and the form elements. */
  datatype Page = Page(userInfo: Option<UserInfo>, fields: Document)

  /** A value of the submitted form dictionary; Undefined is a read past an array's end. */
  datatype FormValue = Str(text: string) | Num(number: nat) | Undefined

  type Form = map<string, FormValue>

  /** `GROUP[field][i]` */
  function IndexedName(group: string, field: string, i: nat): string
  {
    group + "[" + field + "][" + NatToString(i) + "]"
  }

  /** The index and the field are recoverable from an indexed name. */
  lemma IndexedNameInjective(group: string, field: string, i: nat, j: nat)
    ensures IndexedName(group, field, i) == IndexedName(group, field, j) ==> i == j
  {
    var p := group + "[" + field + "][";
    var a, b := NatToString(i), NatToString(j);
    var s, t := IndexedName(group, field, i), IndexedName(group, field, j);
    assert s == p + a + "]" && t == p + b + "]";
    if s == t {
      assert a == s[|p|..|s| - 1] == t[|p|..|t| - 1] == b;
    }
    NatToStringInjective(i, j);
  }

  /** An indexed name starts with `GROUP[field`. */
  lemma IndexedNameHead(group: string, field: string, i: nat, k: nat)
    requires k < |group| + 1 + |field|
    ensures k < |IndexedName(group, field, i)|
    ensures IndexedName(group, field, i)[k] == (group + "[" + field)[k]
  {
    var h := group + "[" + field;
    assert IndexedName(group, field, i) == h + ("][" + NatToString(i) + "]");
  }

  /** Names of two fields whose first letters differ never coincide. */
  lemma IndexedNamesDiffer(group: string, f1: string, f2: string, i: nat, j: nat)
    requires f1 != "" && f2 != ""
    requires f1[0] != f2[0] || (f1 == f2 && i != j)
    ensures IndexedName(group, f1, i) != IndexedName(group, f2, j)
  {
    if f1 == f2 {
      IndexedNameInjective(group, f1, i, j);
    } else {
      IndexedNameHead(group, f1, i, |group| + 1);
      IndexedNameHead(group, f2, j, |group| + 1);
    }
  }

  /** The element `TAG[name="GROUP[field][i]"]` exists. */
  predicate Present(doc: Document, tag: Tag, group: string, field: string, i: nat)
  {
    Element(tag, IndexedName(group, field, i)) in doc
  }

  /** querySelector on an indexed name: the element's value, or None for null. */
  function Query(doc: Document, tag: Tag, group: string, field: string, i: nat): (r: Option<string>)
    ensures r.Some? <==> Present(doc, tag, group, field, i)
    ensures r.Some? ==> r.value == doc[Element(tag, IndexedName(group, field, i))]
  {
    var e := Element(tag, IndexedName(group, field, i));
    if e in doc then Some(doc[e]) else None
  }

  /** Every index below n of the field is present. */
  predicate Complete(doc: Document, tag: Tag, group: string, field: string, n: nat)
  {
    forall j: nat :: j < n ==> Element(tag, IndexedName(group, field, j)) in doc
  }

  /** An incomplete field has a first missing index below n. */
  lemma IncompleteWitness(doc: Document, tag: Tag, group: string, field: string, n: nat)
    ensures !Complete(doc, tag, group, field, n) <==> exists j: nat :: j < n && !Present(doc, tag, group, field, j)
  {
    if !Complete(doc, tag, group, field, n) {
      var j: nat :| j < n && Element(tag, IndexedName(group, field, j)) !in doc;
      assert !Present(doc, tag, group, field, j);
    }
  }

  /** An absent index below n leaves the field incomplete below n. */
  lemma AbsentBreaksComplete(doc: Document, tag: Tag, group: string, field: string, i: nat, n: nat)
    requires i < n && !Present(doc, tag, group, field, i)
    ensures !Complete(doc, tag, group, field, n)
  {
  }

  /** n is where the scan of a group stops: the first index whose INPUT is absent. */
  predicate ScanEndsAt(doc: Document, group: string, field: string, n: nat)
  {
    Complete(doc, Input, group, field, n) && !Present(doc, Input, group, field, n)
  }

  /** The elements named by indices below n. */
  ghost function KeysBelow(tag: Tag, group: string, field: string, n: nat): set<Element>
  {
    if n == 0 then {} else KeysBelow(tag, group, field, n - 1) + {Element(tag, IndexedName(group, field, n - 1))}
  }

  /** Every element of KeysBelow(n) is named by an index below n. */
  lemma {:induction false} KeysBelowIndex(tag: Tag, group: string, field: string, n: nat, e: Element)
    requires e in KeysBelow(tag, group, field, n)
    ensures exists j: nat :: j < n && e == Element(tag, IndexedName(group, field, j))
  {
    if e != Element(tag, IndexedName(group, field, n - 1)) {
      KeysBelowIndex(tag, group, field, n - 1, e);
    }
  }

  lemma {:induction false} KeysBelowCount(tag: Tag, group: string, field: string, n: nat)
    ensures |KeysBelow(tag, group, field, n)| == n
  {
    if n > 0 {
      KeysBelowCount(tag, group, field, n - 1);
      NextKeyFresh(tag, group, field, n - 1);
    }
  }

  /** The element of index m is not among those below m. */
  lemma NextKeyFresh(tag: Tag, group: string, field: string, m: nat)
    ensures Element(tag, IndexedName(group, field, m)) !in KeysBelow(tag, group, field, m)
  {
    var e := Element(tag, IndexedName(group, field, m));
    if e in KeysBelow(tag, group, field, m) {
      KeysBelowIndex(tag, group, field, m, e);
      var j: nat :| j < m && e == Element(tag, IndexedName(group, field, j));
      IndexedNameInjective(group, field, j, m);
      assert false;
    }
  }

  lemma SubsetCount<T>(a: set<T>, b: set<T>)
    requires a <= b
    ensures |a| <= |b|
  {
    assert b == a + (b - a);
  }

  /** A finite page holds no more complete indices than it has elements. */
  lemma CompleteBounded(doc: Document, tag: Tag, group: string, field: string, n: nat)
    requires Complete(doc, tag, group, field, n)
    ensures n <= |doc|
  {
    var s := KeysBelow(tag, group, field, n);
    KeysBelowCount(tag, group, field, n);
    forall e | e in s ensures e in doc.Keys {
      KeysBelowIndex(tag, group, field, n, e);
      var j: nat :| j < n && e == Element(tag, IndexedName(group, field, j));
    }
    SubsetCount(s, doc.Keys);
  }

  lemma {:induction false} FirstGapBelow(doc: Document, group: string, field: string, n: nat)
    requires !Complete(doc, Input, group, field, n)
    ensures exists m: nat :: m < n && ScanEndsAt(doc, group, field, m)
  {
    if Complete(doc, Input, group, field, n - 1) {
      assert ScanEndsAt(doc, group, field, n - 1);
    } else {
      FirstGapBelow(doc, group, field, n - 1);
    }
  }

  /** Every scan of a finite page stops. */
  lemma ScanStops(doc: Document, group: string, field: string)
    ensures exists n: nat :: ScanEndsAt(doc, group, field, n)
  {
    var b := |doc| + 1;
    if Complete(doc, Input, group, field, b) {
      CompleteBounded(doc, Input, group, field, b);
      assert false;
    } else {
      FirstGapBelow(doc, group, field, b);
    }
  }

  /** The stopping index is unique. */
  lemma ScanEndsAtUnique(doc: Document, group: string, field: string, n: nat, m: nat)
    requires ScanEndsAt(doc, group, field, n) && ScanEndsAt(doc, group, field, m)
    ensures n == m
  {
  }

  /** The number of rows a scan of the group reads. */
  ghost function ScanLength(doc: Document, group: string, field: string): (n: nat)
    ensures ScanEndsAt(doc, group, field, n)
  {
    ScanStops(doc, group, field);
    var n: nat :| ScanEndsAt(doc, group, field, n); n
  }

  /**
   * A gap decides the length: if indices below n are present and n is absent,
   * the scan reads exactly n rows, whatever is present after the gap.
   */
  lemma ScanStopsAtFirstGap(doc: Document, group: string, field: string, n: nat)
    requires Complete(doc, Input, group, field, n) && !Present(doc, Input, group, field, n)
    ensures ScanLength(doc, group, field) == n
  {
    ScanEndsAtUnique(doc, group, field, n, ScanLength(doc, group, field));
  }

  /** The values of a field at indices 0 .. n-1, in index order. */
  function ColumnOf(doc: Document, tag: Tag, group: string, field: string, n: nat): (col: seq<string>)
    requires Complete(doc, tag, group, field, n)
    ensures |col| == n
    ensures forall j :: 0 <= j < n ==> col[j] == doc[Element(tag, IndexedName(group, field, j))]
  {
    if n == 0 then [] else ColumnOf(doc, tag, group, field, n - 1) + [doc[Element(tag, IndexedName(group, field, n - 1))]]
  }

  /** One more present index extends a complete column by that index's value. */
  lemma ColumnStep(doc: Document, tag: Tag, group: string, field: string, i: nat)
    requires Complete(doc, tag, group, field, i) && Present(doc, tag, group, field, i)
    ensures Complete(doc, tag, group, field, i + 1)
    ensures ColumnOf(doc, tag, group, field, i + 1)
      == ColumnOf(doc, tag, group, field, i) + [doc[Element(tag, IndexedName(group, field, i))]]
  {
  }

  /** A document showing col[j] at every index j below |col| yields col as that column. */
  lemma ColumnShown(doc: Document, tag: Tag, group: string, field: string, col: seq<string>)
    requires forall j: nat :: j < |col| ==> Element(tag, IndexedName(group, field, j)) in doc
    requires forall j: nat :: j < |col| ==> doc[Element(tag, IndexedName(group, field, j))] == col[j]
    ensures Complete(doc, tag, group, field, |col|)
    ensures ColumnOf(doc, tag, group, field, |col|) == col
  {
  }

  /** How a form value travels in an urlencoded body: undefined values are omitted. */
  function Rendered(v: FormValue): Option<string>
  {
    match v
    case Str(s) => Some(s)
    case Num(n) => Some(NatToString(n))
    case Undefined => None
  }

  lemma TagCases(t: Tag)
    ensures t == Input || t == Select
  {
  }

  /**
   * A page that shows every submitted field back, under either tag, with the
   * value that was submitted.
   */
  function EchoPage(form: Form): (doc: Document)
    ensures forall t, n :: Element(t, n) in doc <==> n in form && Rendered(form[n]).Some?
    ensures forall t, n :: Element(t, n) in doc ==> doc[Element(t, n)] == Rendered(form[n]).value
  {
    var shown := set n | n in form && Rendered(form[n]).Some?;
    var elements := set t, n | t in {Input, Select} && n in shown :: Element(t, n);
    assert forall t: Tag, n :: n in shown ==> Element(t, n) in elements by {
      forall t: Tag, n | n in shown ensures Element(t, n) in elements {
        TagCases(t);
      }
    }
    map e | e in elements :: Rendered(form[e.name]).value
  }
}
