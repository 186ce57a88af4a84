/**
  Content-Type selection (`get_mime_type`): the text after the last '.' of the
  requested name is compared, ignoring case, against a fixed table of twelve
  extensions; anything else is served as a generic binary type.
*/
module Mime {
  import opened CString

  /** The type of a name with no '.' or with an extension not in the table. */
  const OctetStream: string := "application/octet-stream"

  /** The extension table, in the order the lookup scans it. */
  const Table: seq<(string, string)> := [
    ("txt", "text/plain"),
    ("html", "text/html"),
    ("htm", "text/html"),
    ("jpg", "image/jpeg"),
    ("jpeg", "image/jpeg"),
    ("png", "image/png"),
    ("gif", "image/gif"),
    ("pdf", "application/pdf"),
    ("js", "application/javascript"),
    ("css", "text/css"),
    ("json", "application/json"),
    ("mp4", "video/mp4")
  ]

  /** The same association, written as a map from lower-case extension to type. */
  const Types: map<string, string> := map[
    "txt" := "text/plain",
    "html" := "text/html",
    "htm" := "text/html",
    "jpg" := "image/jpeg",
    "jpeg" := "image/jpeg",
    "png" := "image/png",
    "gif" := "image/gif",
    "pdf" := "application/pdf",
    "js" := "application/javascript",
    "css" := "text/css",
    "json" := "application/json",
    "mp4" := "video/mp4"
  ]

  /** Every type the server can announce. */
  predicate IsKnownType(t: string) {
    t == OctetStream || t in Types.Values
  }

  /** The scan of `table` from entry `i` on: the first entry whose extension matches wins. */
  function Lookup(ext: string, table: seq<(string, string)>, i: nat): (t: string)
    requires i <= |table|
    ensures t == OctetStream || exists j :: i <= j < |table| && table[j].1 == t
    decreases |table| - i
  {
    if i == |table| then OctetStream
    else if EqualsIgnoreCase(ext, table[i].0) then table[i].1
    else Lookup(ext, table, i + 1)
  }

  /** `get_mime_type(filename)`. */
  function TypeOf(name: string): (t: string)
    ensures IsKnownType(t)
  {
    var dot := LastIndexOf(name, '.');
    if dot < 0 then OctetStream
    else
      var t := Lookup(name[dot + 1..], Table, 0);
      TableInTypes();
      t
  }

  /** Each table entry is an entry of the map. */
  lemma TableInTypes()
    ensures forall j :: 0 <= j < |Table| ==> Table[j].0 in Types && Types[Table[j].0] == Table[j].1
  {
  }

  /** Every table extension is written in lower case. */
  lemma TableIsLowerCase()
    ensures forall j :: 0 <= j < |Table| ==> Lower(Table[j].0) == Table[j].0
  {
    forall j | 0 <= j < |Table|
      ensures Lower(Table[j].0) == Table[j].0
    {
      LowerOfLowercase(Table[j].0);
    }
  }

  /** Every key of the map appears in the table. */
  lemma TypesInTable()
    ensures forall e :: e in Types ==> exists j :: 0 <= j < |Table| && Table[j].0 == e
  {
    assert Table[0].0 == "txt" && Table[1].0 == "html" && Table[2].0 == "htm";
    assert Table[3].0 == "jpg" && Table[4].0 == "jpeg" && Table[5].0 == "png";
    assert Table[6].0 == "gif" && Table[7].0 == "pdf" && Table[8].0 == "js";
    assert Table[9].0 == "css" && Table[10].0 == "json" && Table[11].0 == "mp4";
  }

  /** No extension appears twice in the table, so the first match is the only one. */
  lemma TableKeysDistinct()
    ensures forall a, b :: 0 <= a < b < |Table| ==> Table[a].0 != Table[b].0
  {
  }

  /** The scan from `i` stops at the first entry that matches. */
  lemma {:induction false} LookupFinds(ext: string, table: seq<(string, string)>, i: nat, j: nat)
    requires i <= j < |table| && EqualsIgnoreCase(ext, table[j].0)
    requires forall k :: i <= k < j ==> !EqualsIgnoreCase(ext, table[k].0)
    ensures Lookup(ext, table, i) == table[j].1
    decreases j - i
  {
    if i < j {
      LookupFinds(ext, table, i + 1, j);
    }
  }

  /** The scan from `i` falls through when no later entry matches. */
  lemma {:induction false} LookupMisses(ext: string, table: seq<(string, string)>, i: nat)
    requires i <= |table|
    requires forall k :: i <= k < |table| ==> !EqualsIgnoreCase(ext, table[k].0)
    ensures Lookup(ext, table, i) == OctetStream
    decreases |table| - i
  {
    if i < |table| {
      LookupMisses(ext, table, i + 1);
    }
  }

  /** The scan finds an extension exactly when its lower-case form is a key of the map. */
  lemma LookupAgreesWithTypes(ext: string)
    ensures Lookup(ext, Table, 0) == (if Lower(ext) in Types then Types[Lower(ext)] else OctetStream)
  {
    TableIsLowerCase();
    TableInTypes();
    if Lower(ext) in Types {
      TypesInTable();
      var j :| 0 <= j < |Table| && Table[j].0 == Lower(ext);
      TableKeysDistinct();
      LookupFinds(ext, Table, 0, j);
    } else {
      LookupMisses(ext, Table, 0);
    }
  }

  /** A name without '.' is always the generic binary type. */
  lemma TypeOfWithoutDot(name: string)
    requires '.' !in name
    ensures TypeOf(name) == OctetStream
  {
  }

  /**
    Only the text after the last '.' matters, and it is looked up by its lower-case
    form: with the map this pins the result down for every name.
  */
  lemma TypeOfLastExtension(stem: string, ext: string)
    requires '.' !in ext
    ensures TypeOf(stem + "." + ext) == (if Lower(ext) in Types then Types[Lower(ext)] else OctetStream)
  {
    var name := stem + "." + ext;
    var dot := |stem|;
    assert name[dot] == '.';
    assert name[dot + 1..] == ext;
    assert LastIndexOf(name, '.') == dot;
    LookupAgreesWithTypes(ext);
  }

  /** The scan gives the same answer for an extension and its lower-case form. */
  lemma LookupIgnoresCase(ext: string)
    ensures Lookup(Lower(ext), Table, 0) == Lookup(ext, Table, 0)
  {
    LowerIdempotent(ext);
    LookupAgreesWithTypes(ext);
    LookupAgreesWithTypes(Lower(ext));
  }

  /** The comparison ignores case: lower-casing the whole name never changes its type. */
  lemma TypeOfIgnoresCase(name: string)
    ensures TypeOf(Lower(name)) == TypeOf(name)
  {
    var low := Lower(name);
    LastDotUnchangedByLower(name);
    var dot := LastIndexOf(name, '.');
    if dot >= 0 {
      LowerSuffix(name, dot + 1);
      LookupIgnoresCase(name[dot + 1..]);
    }
  }
}
