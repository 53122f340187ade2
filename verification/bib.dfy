/** A parsed bibliography record and the type-dispatched venue lookup of
    `get_venue_field`. */
module Bib {
  import opened Text

  /** One parsed entry: its `@type`, its citation key, the field map (field
      names lower-cased by the parser) and the original text block, which is
      written out verbatim if the entry survives. */
  datatype Entry = Entry(entryType: string, key: string, fields: map<string, string>, raw: string)

  /** `entry['fields'].get(name, '')`: a missing field reads as empty. */
  function Field(e: Entry, name: string): string {
    if name in e.fields then e.fields[name] else ""
  }

  /** `entry['type'].lower()` */
  function Kind(e: Entry): string {
    Lower(e.entryType)
  }

  /** Python's `a or b` on two strings: the first unless it is empty. */
  function Or(a: string, b: string): string {
    if a != "" then a else b
  }

  /** `get_venue_field`: which field names the publication venue depends on the
      lower-cased entry type; within a type the first non-empty field wins. */
  function Venue(e: Entry): (v: string)
    ensures v == FirstNonEmpty(e, VenueOrder(Kind(e)))
    ensures v == "" <==> forall k :: 0 <= k < |VenueOrder(Kind(e))| ==> Field(e, VenueOrder(Kind(e))[k]) == ""
  {
    var t := Kind(e);
    if t == "article" then
      FirstOfOne(e, "journal");
      Field(e, "journal")
    else if t == "inproceedings" || t == "conference" then
      FirstOfOne(e, "booktitle");
      Field(e, "booktitle")
    else if t == "book" then
      FirstOfTwo(e, "publisher", "series");
      Or(Field(e, "publisher"), Field(e, "series"))
    else if t == "incollection" then
      FirstOfOne(e, "booktitle");
      Field(e, "booktitle")
    else if t == "misc" || t == "preprint" then
      FirstOfThree(e, "journal", "howpublished", "note");
      Or(Field(e, "journal"), Or(Field(e, "howpublished"), Field(e, "note")))
    else if t == "thesis" || t == "phdthesis" || t == "mastersthesis" then
      FirstOfOne(e, "school");
      Field(e, "school")
    else if t == "techreport" then
      FirstOfOne(e, "institution");
      Field(e, "institution")
    else
      FirstOfThree(e, "journal", "booktitle", "publisher");
      Or(Field(e, "journal"), Or(Field(e, "booktitle"), Field(e, "publisher")))
  }

  /** The dispatch cases: an article's venue is its journal even when a
      booktitle is present; a book falls back from publisher to series; a
      misc or preprint entry tries journal, howpublished, note; a type the
      table does not name tries journal, booktitle, publisher. The type is
      compared lower-cased. */
  lemma VenueTable(e: Entry)
    ensures Kind(e) == "article" ==> Venue(e) == Field(e, "journal")
    ensures Kind(e) == "book" ==> Venue(e) == (if Field(e, "publisher") != "" then Field(e, "publisher") else Field(e, "series"))
    ensures Kind(e) == "misc" || Kind(e) == "preprint" ==>
              Venue(e) == (if Field(e, "journal") != "" then Field(e, "journal")
                           else if Field(e, "howpublished") != "" then Field(e, "howpublished")
                           else Field(e, "note"))
    ensures Kind(e) !in KnownTypes ==>
              Venue(e) == (if Field(e, "journal") != "" then Field(e, "journal")
                           else if Field(e, "booktitle") != "" then Field(e, "booktitle")
                           else Field(e, "publisher"))
  {
  }

  /** Entry types with their own row in the venue table. */
  const KnownTypes: set<string> := {"article", "inproceedings", "conference", "book", "incollection",
                                    "misc", "preprint", "thesis", "phdthesis", "mastersthesis", "techreport"}

  /** Two entries whose types differ only in letter case have the same venue. */
  lemma VenueIgnoresTypeCase(e1: Entry, e2: Entry)
    requires Lower(e1.entryType) == Lower(e2.entryType) && e1.fields == e2.fields
    ensures Venue(e1) == Venue(e2)
  {
  }

  lemma FirstOfOne(e: Entry, a: string)
    ensures FirstNonEmpty(e, [a]) == Field(e, a)
  {
    assert [a][1..] == [];
  }

  lemma FirstOfTwo(e: Entry, a: string, b: string)
    ensures FirstNonEmpty(e, [a, b]) == Or(Field(e, a), Field(e, b))
  {
    assert [a, b][1..] == [b];
    FirstOfOne(e, b);
  }

  lemma FirstOfThree(e: Entry, a: string, b: string, c: string)
    ensures FirstNonEmpty(e, [a, b, c]) == Or(Field(e, a), Or(Field(e, b), Field(e, c)))
  {
    assert [a, b, c][1..] == [b, c];
    FirstOfTwo(e, b, c);
  }

  /** The venue table as data: for each entry type, the fields consulted in
      order. Types the table does not name fall back to journal, booktitle,
      publisher. */
  function VenueOrder(t: string): seq<string> {
    if t == "article" then ["journal"]
    else if t == "inproceedings" || t == "conference" || t == "incollection" then ["booktitle"]
    else if t == "book" then ["publisher", "series"]
    else if t == "misc" || t == "preprint" then ["journal", "howpublished", "note"]
    else if t == "thesis" || t == "phdthesis" || t == "mastersthesis" then ["school"]
    else if t == "techreport" then ["institution"]
    else ["journal", "booktitle", "publisher"]
  }

  /** The value of the first listed field that is present and non-empty, or
      the empty string when there is none. */
  function FirstNonEmpty(e: Entry, names: seq<string>): (v: string)
    ensures v == "" <==> forall k :: 0 <= k < |names| ==> Field(e, names[k]) == ""
    ensures v != "" ==> exists k :: 0 <= k < |names| && v == Field(e, names[k])
                                    && forall j :: 0 <= j < k ==> Field(e, names[j]) == ""
  {
    if names == [] then ""
    else if Field(e, names[0]) != "" then Field(e, names[0])
    else
      var v := FirstNonEmpty(e, names[1..]);
      assert forall k :: 1 <= k < |names| ==> names[k] == names[1..][k - 1];
      v
  }
}
