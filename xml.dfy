/**
 * The already-parsed XML tree the importer reads (METS with embedded MODS),
 * and the string helpers of the Java runtime and Commons Lang it relies on.
 * Namespaces are dropped: an element is matched by its local name.
 */
module Xml {

  datatype Option<+T> = None | Some(value: T)

  /** One XML element: local name, attributes, direct text and child elements. */
  datatype Elem = Elem(name: string, attrs: map<string, string>, text: string, children: seq<Elem>)

  /** `getAttributeValue`: the attribute's value, or null when it is missing. */
  function Attr(e: Elem, key: string): Option<string>
  {
    if key in e.attrs then Some(e.attrs[key]) else None
  }

  /** `getChildren(name)`: the children with that name, in document order. */
  function ChildrenNamed(es: seq<Elem>, name: string): (r: seq<Elem>)
    ensures |r| <= |es|
  {
    if es == [] then []
    else (if es[0].name == name then [es[0]] else []) + ChildrenNamed(es[1..], name)
  }

  /** The children with a name are exactly the children that have it. */
  lemma {:induction false} ChildrenNamedExactly(es: seq<Elem>, name: string)
    ensures forall c :: c in ChildrenNamed(es, name) <==> c in es && c.name == name
  {
    if es != [] {
      ChildrenNamedExactly(es[1..], name);
      assert forall c :: c in es <==> c == es[0] || c in es[1..];
    }
  }

  /** Filtering by name keeps document order and repeats: it distributes over concatenation. */
  lemma {:induction false} ChildrenNamedAppend(a: seq<Elem>, b: seq<Elem>, name: string)
    ensures ChildrenNamed(a + b, name) == ChildrenNamed(a, name) + ChildrenNamed(b, name)
  {
    if a == [] {
      assert a + b == b;
    } else {
      var head := if a[0].name == name then [a[0]] else [];
      var ab := a + b;
      assert ab != [] && ab[0] == a[0] && ab[1..] == a[1..] + b;
      ChildrenNamedAppend(a[1..], b, name);
      calc {
        ChildrenNamed(ab, name);
        head + ChildrenNamed(a[1..] + b, name);
        head + (ChildrenNamed(a[1..], name) + ChildrenNamed(b, name));
        (head + ChildrenNamed(a[1..], name)) + ChildrenNamed(b, name);
        ChildrenNamed(a, name) + ChildrenNamed(b, name);
      }
    }
  }

  function Children(e: Elem, name: string): seq<Elem> {
    ChildrenNamed(e.children, name)
  }

  /** `getChild(name)`: the first child with that name, or null. */
  function FirstNamed(es: seq<Elem>, name: string): Option<Elem> {
    if es == [] then None
    else if es[0].name == name then Some(es[0])
    else FirstNamed(es[1..], name)
  }

  /** `getChild` finds a child exactly when one has the name, and what it finds is the first that has it. */
  lemma {:induction false} FirstNamedSpec(es: seq<Elem>, name: string)
    ensures var r := FirstNamed(es, name);
            (r.Some? <==> exists c :: c in es && c.name == name)
            && (r.Some? ==> r.value in es && r.value.name == name)
            && (r.Some? ==> exists k :: 0 <= k < |es| && es[k] == r.value && forall j :: 0 <= j < k ==> es[j].name != name)
  {
    if es != [] {
      if es[0].name == name {
        assert es[0] == FirstNamed(es, name).value;
      } else {
        FirstNamedSpec(es[1..], name);
        assert forall c :: c in es <==> c == es[0] || c in es[1..];
        var r := FirstNamed(es, name);
        if r.Some? {
          var k :| 0 <= k < |es[1..]| && es[1..][k] == r.value && forall j :: 0 <= j < k ==> es[1..][j].name != name;
          assert es[k + 1] == r.value;
          assert forall j :: 0 <= j < k + 1 ==> es[j].name != name by {
            forall j | 0 <= j < k + 1 ensures es[j].name != name {
              if j > 0 { assert es[j] == es[1..][j - 1]; }
            }
          }
        }
      }
    }
  }

  function Child(e: Elem, name: string): Option<Elem> {
    FirstNamed(e.children, name)
  }

  /** Java's `Character.isWhitespace`, which `StringUtils.isBlank` uses. */
  predicate IsWhitespace(c: char) {
    c == ' ' || c == '\t' || c == '\n' || c == '\r'
    || ('\U{000B}' <= c <= '\U{000C}')
    || ('\U{001C}' <= c <= '\U{001F}')
    || c == '\U{1680}' || ('\U{2000}' <= c <= '\U{2006}') || ('\U{2008}' <= c <= '\U{200A}')
    || c == '\U{2028}' || c == '\U{2029}' || c == '\U{205F}' || c == '\U{3000}'
  }

  /** `StringUtils.isBlank`: null, empty, or nothing but whitespace. */
  predicate IsBlank(s: Option<string>) {
    s.None? || forall i :: 0 <= i < |s.value| ==> IsWhitespace(s.value[i])
  }

  predicate IsNotBlank(s: Option<string>) {
    !IsBlank(s)
  }

  function LowerChar(c: char): (r: char)
    ensures 'A' <= c <= 'Z' ==> 'a' <= r <= 'z'
    ensures !('A' <= c <= 'Z') ==> r == c
  {
    if 'A' <= c <= 'Z' then (c as int - 'A' as int + 'a' as int) as char else c
  }

  /** `String.toLowerCase`, on the ASCII letters only: other letters are left as they are. */
  function ToLower(s: string): (r: string)
    ensures |r| == |s|
    ensures forall i :: 0 <= i < |s| ==> r[i] == LowerChar(s[i])
  {
    if s == [] then [] else [LowerChar(s[0])] + ToLower(s[1..])
  }

  /** `String.equalsIgnoreCase` with a literal that is already lower case, folding ASCII case only. */
  predicate EqualsIgnoreCase(s: Option<string>, lower: string) {
    s.Some? && ToLower(s.value) == lower
  }
}
