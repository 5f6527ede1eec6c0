/** File names in the title-aware program: `sanitize_filename` and the name
    an item is expected to have on disk once it has been fetched. */
module Filenames {

  /** The characters `sanitize_filename` replaces: < > : " / \ | ? * and the
      full-width question mark U+FF1F. */
  predicate IsReserved(c: char) {
    c == '<' || c == '>' || c == ':' || c == '"' || c == '/' || c == '\\'
    || c == '|' || c == '?' || c == '*' || c == '\U{FF1F}'
  }

  /** No character of `s` is reserved. */
  predicate Clean(s: string) {
    forall i :: 0 <= i < |s| ==> !IsReserved(s[i])
  }

  function SanitizeChar(c: char): char {
    if IsReserved(c) then '_' else c
  }

  /** `sanitize_filename`: every reserved character becomes `_`, every other
      character, whatever its script, stays where it is. */
  function SanitizeFilename(name: string): (r: string)
    ensures |r| == |name|
    ensures forall i :: 0 <= i < |name| && IsReserved(name[i]) ==> r[i] == '_'
    ensures forall i :: 0 <= i < |name| && !IsReserved(name[i]) ==> r[i] == name[i]
    ensures Clean(r)
  {
    if name == [] then [] else [SanitizeChar(name[0])] + SanitizeFilename(name[1..])
  }

  /** A name is left alone exactly when it has nothing to replace. */
  lemma SanitizeFixesExactlyClean(name: string)
    ensures SanitizeFilename(name) == name <==> Clean(name)
  {
    if Clean(name) {
      assert forall i :: 0 <= i < |name| ==> SanitizeFilename(name)[i] == name[i];
    }
  }

  /** Sanitising twice is sanitising once. */
  lemma SanitizeIdempotent(name: string)
    ensures SanitizeFilename(SanitizeFilename(name)) == SanitizeFilename(name)
  {
    SanitizeFixesExactlyClean(SanitizeFilename(name));
  }

  /** Sanitising works character by character, so it splits over concatenation. */
  lemma SanitizeConcat(a: string, b: string)
    ensures SanitizeFilename(a + b) == SanitizeFilename(a) + SanitizeFilename(b)
  {
    var l, r := SanitizeFilename(a + b), SanitizeFilename(a) + SanitizeFilename(b);
    assert |l| == |r|;
    forall i | 0 <= i < |l| ensures l[i] == r[i] {
      if i < |a| {
        assert (a + b)[i] == a[i];
      } else {
        assert (a + b)[i] == b[i - |a|];
      }
    }
  }

  /** The on-disk name `"{sanitised title} [{id}].opus"` of a fetched item:
      the sanitised title fills the first `|title|` positions, the id sits
      unchanged two positions later, and the name ends in "].opus". */
  function ExpectedName(title: string, id: string): (name: string)
    ensures |name| == |title| + |id| + 8
    ensures name[..|title|] == SanitizeFilename(title)
    ensures name[|title| + 2..|title| + 2 + |id|] == id
    ensures name[|name| - 6..] == "].opus"
  {
    var name := SanitizeFilename(title) + " [" + id + "].opus";
    assert name[|title| + 2..|title| + 2 + |id|] == id;
    name
  }

  /** Between the sanitised title and the id stands the separator `" ["`. */
  lemma ExpectedNameSeparator(title: string, id: string)
    ensures ExpectedName(title, id)[|title|..|title| + 2] == " ["
  {
  }

  /** The expected name has no reserved character exactly when the id has none. */
  lemma ExpectedNameClean(title: string, id: string)
    ensures Clean(ExpectedName(title, id)) <==> Clean(id)
  {
    var t := SanitizeFilename(title);
    var name := ExpectedName(title, id);
    assert name == t + " [" + id + "].opus";
    if Clean(id) {
      forall i | 0 <= i < |name| ensures !IsReserved(name[i]) {
        if i < |t| {
          assert name[i] == t[i];
        } else if i < |t| + 2 {
          assert name[i] == " ["[i - |t|];
        } else if i < |t| + 2 + |id| {
          assert name[i] == id[i - |t| - 2];
        } else {
          assert name[i] == "].opus"[i - |t| - 2 - |id|];
        }
      }
    } else {
      var j :| 0 <= j < |id| && IsReserved(id[j]);
      assert name[|t| + 2 + j] == id[j];
    }
  }

  /** Re-sanitising an already-sanitised title changes nothing, so composing
      the name from a listing title (sanitised there) is the same as
      composing it from the raw title. */
  lemma ExpectedNameOfSanitisedTitle(title: string, id: string)
    ensures ExpectedName(SanitizeFilename(title), id) == ExpectedName(title, id)
  {
    SanitizeIdempotent(title);
  }

  /** A file written under its expected name is found again after sanitising,
      provided the id has no reserved character. */
  lemma ExpectedNameStable(title: string, id: string)
    requires Clean(id)
    ensures SanitizeFilename(ExpectedName(title, id)) == ExpectedName(title, id)
  {
    ExpectedNameClean(title, id);
    SanitizeFixesExactlyClean(ExpectedName(title, id));
  }

  /** Appending `" ["` and a clean part to a title survives sanitising. */
  lemma SanitizeCleanTail(title: string, part: string)
    requires Clean(part)
    ensures SanitizeFilename(title + " [" + part) == SanitizeFilename(title) + " [" + part
  {
    var tail := " [" + part;
    assert Clean(tail) by {
      forall i | 0 <= i < |tail| ensures !IsReserved(tail[i]) {
        if i >= 2 {
          assert tail[i] == part[i - 2];
        }
      }
    }
    SanitizeFixesExactlyClean(tail);
    assert title + " [" + part == title + tail;
    SanitizeConcat(title, tail);
    assert SanitizeFilename(title) + tail == SanitizeFilename(title) + " [" + part;
  }

  /** The name does not determine its title and id: a title ending in
      `" [" + part` with a clean `part` composes, with one id, the same name
      as the shorter title does with the id `part + " [" + id`. */
  lemma ExpectedNameCollision(title: string, part: string, id: string)
    requires Clean(part)
    ensures ExpectedName(title + " [" + part, id) == ExpectedName(title, part + " [" + id)
  {
    var t := SanitizeFilename(title);
    SanitizeCleanTail(title, part);
    var left := SanitizeFilename(title + " [" + part) + " [" + id + "].opus";
    var right := t + " [" + (part + " [" + id) + "].opus";
    assert left == t + " [" + part + " [" + id + "].opus";
    assert left == right;
  }

  /** A sample title without reserved characters is kept as it is. */
  lemma SampleCleanTitle()
    ensures SanitizeFilename("Song One") == "Song One"
  {
    assert Clean("Song One");
    SanitizeFixesExactlyClean("Song One");
  }

  /** In a sample title the reserved `/` becomes `_`. */
  lemma SampleReservedTitle()
    ensures SanitizeFilename("Song/Two") == "Song_Two"
  {
    var r := SanitizeFilename("Song/Two");
    assert IsReserved("Song/Two"[4]);
    assert forall i :: 0 <= i < 8 && i != 4 ==> !IsReserved("Song/Two"[i]);
    assert r == "Song_Two";
  }

  /** The names those titles are saved under. */
  lemma SampleNames()
    ensures ExpectedName("Song One", "a1") == "Song One [a1].opus"
    ensures ExpectedName("Song/Two", "a2") == "Song_Two [a2].opus"
    ensures ExpectedName("Song_Two", "a2") == "Song_Two [a2].opus"
  {
    SampleCleanTitle();
    SampleReservedTitle();
    ExpectedNameOfSanitisedTitle("Song/Two", "a2");
  }

  /** Two different (title, id) pairs that compose the same name. */
  lemma SampleCollision()
    ensures ExpectedName("a [x", "y") == ExpectedName("a", "x [y")
  {
    assert Clean("x");
    assert "a" + " [" + "x" == "a [x";
    assert "x" + " [" + "y" == "x [y";
    ExpectedNameCollision("a", "x", "y");
  }
}
