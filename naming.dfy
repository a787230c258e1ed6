/**
 * Two inline rules of the importer lifted into functions: the local file
 * name of an image descriptor, and the person role chosen by a MARC
 * relator code.
 */
module Naming {
  import opened Xml

  /** `s.indexOf(c)`: the first position of `c`, or -1. */
  function IndexOf(s: string, c: char): (r: int)
    ensures -1 <= r < |s|
    ensures r == -1 <==> c !in s
    ensures r >= 0 ==> s[r] == c && c !in s[..r]
  {
    if s == [] then -1
    else if s[0] == c then 0
    else
      var k := IndexOf(s[1..], c);
      if k == -1 then -1
      else
        assert s[..k + 1] == [s[0]] + s[1..][..k];
        k + 1
  }

  /** Java's string concatenation prints a null id as "null". */
  function IdText(id: Option<string>): string {
    if id.Some? then id.value else "null"
  }

  /**
   * The local name of an image: the id, a dot, and everything after the
   * first slash of the MIME type (all of it when there is no slash);
   * "jpg" when the MIME type is blank.
   */
  function FileName(id: Option<string>, mime: Option<string>): string {
    if IsNotBlank(mime) then
      IdText(id) + "." + mime.value[IndexOf(mime.value, '/') + 1..]
    else
      IdText(id) + ".jpg"
  }

  lemma {:induction false} IndexOfFirstSlash(t: string, sub: string)
    requires '/' !in t
    ensures IndexOf(t + "/" + sub, '/') == |t|
  {
    if t != [] {
      assert (t + "/" + sub)[1..] == t[1..] + "/" + sub;
      IndexOfFirstSlash(t[1..], sub);
    }
  }

  /** A MIME type `t/sub` gives the extension `sub`, whatever `sub` holds. */
  lemma FileNameFromSubtype(id: Option<string>, t: string, sub: string)
    requires '/' !in t
    ensures FileName(id, Some(t + "/" + sub)) == IdText(id) + "." + sub
  {
    var m := t + "/" + sub;
    assert m[|t|] == '/';
    assert !IsBlank(Some(m));
    IndexOfFirstSlash(t, sub);
    assert m[|t| + 1..] == sub;
  }

  /** A non-blank MIME type without a slash is used whole as the extension. */
  lemma FileNameWithoutSlash(id: Option<string>, mime: string)
    requires IsNotBlank(Some(mime)) && '/' !in mime
    ensures FileName(id, Some(mime)) == IdText(id) + "." + mime
  {
    assert mime[0..] == mime;
  }

  /** A blank or missing MIME type falls back to ".jpg". */
  lemma FileNameDefault(id: Option<string>, mime: Option<string>)
    requires IsBlank(mime)
    ensures FileName(id, mime) == IdText(id) + ".jpg"
  {
  }

  /** `image/jpeg` keeps its subtype: the name ends in ".jpeg", not ".jpg". */
  lemma FileNameJpeg()
    ensures FileName(Some("FILE_0001"), Some("image/jpeg")) == "FILE_0001.jpeg"
  {
    var id, m := Some("FILE_0001"), "image" + "/" + "jpeg";
    assert m == "image/jpeg";
    FileNameFromSubtype(id, "image", "jpeg");
    assert FileName(id, Some(m)) == "FILE_0001" + "." + "jpeg";
    assert "FILE_0001" + "." + "jpeg" == "FILE_0001.jpeg";
  }

  /** The person type chosen by the role term of a personal name. */
  function Role(term: string): (r: string)
    ensures r in {"Author", "Engraver", "Honoree", "Editor", "OtherPerson"}
    ensures r == "Author" <==> term == "aut"
    ensures r == "Engraver" <==> term == "egr"
    ensures r == "Honoree" <==> term == "dte"
    ensures r == "Editor" <==> term == "edt"
    ensures r == "OtherPerson" <==> term !in {"aut", "egr", "dte", "edt"}
  {
    match term
    case "aut" => "Author"
    case "egr" => "Engraver"
    case "dte" => "Honoree"
    case "edt" => "Editor"
    case _ => "OtherPerson"
  }
}
