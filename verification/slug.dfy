/** The slug the book model's pre-save hook derives from a title: the title
    in lower case, each maximal run of characters outside [a-z0-9æøå]
    replaced by one '-', then a leading and a trailing '-' removed. */
module Slug {
  import opened Wrappers

  /** JavaScript's `toLowerCase` on one character, for the characters whose
      lower case can matter here: the basic Latin and Latin-1 capitals and
      the Kelvin and Angstrom signs. */
  function LowerChar(ch: char): char {
    if 'A' <= ch <= 'Z' then (ch as int + 32) as char
    else if '\U{00C0}' <= ch <= '\U{00DE}' && ch != '\U{00D7}' then (ch as int + 32) as char
    else if ch == '\U{212A}' then 'k'
    else if ch == '\U{212B}' then '\U{00E5}'
    else ch
  }

  /** The character class [a-z0-9æøå]. */
  predicate Allowed(ch: char) {
    'a' <= ch <= 'z' || '0' <= ch <= '9' || ch == '\U{00E6}' || ch == '\U{00F8}' || ch == '\U{00E5}'
  }

  /** The capitals whose lower case is in the class: A-Z, Æ, Ø, Å and the
      Kelvin and Angstrom signs. */
  predicate LowersIntoClass(ch: char) {
    'A' <= ch <= 'Z' || ch == '\U{00C6}' || ch == '\U{00D8}' || ch == '\U{00C5}'
    || ch == '\U{212A}' || ch == '\U{212B}'
  }

  /** `title.toLowerCase()`, character by character. After lowering, a
      character is in the class exactly when it already was or it is one
      of the capitals that lower into it. */
  function Lower(s: string): (r: string)
    ensures |r| == |s|
    ensures forall i :: 0 <= i < |s| ==> r[i] == LowerChar(s[i])
    ensures forall i :: 0 <= i < |s| ==> (Allowed(r[i]) <==> Allowed(s[i]) || LowersIntoClass(s[i]))
  {
    seq(|s|, i requires 0 <= i < |s| => LowerChar(s[i]))
  }

  /** Lowering a lowered string changes nothing. */
  lemma LowerIdempotent(s: string)
    ensures Lower(Lower(s)) == Lower(s)
  {
    var t := Lower(s);
    assert forall i :: 0 <= i < |s| ==> t[i] == LowerChar(s[i]) && LowerChar(t[i]) == t[i];
  }

  /** The longest suffix of `s` that does not start with a character outside
      the class: what is left once a leading run is consumed. */
  function SkipRun(s: string): (r: string)
    ensures |r| <= |s|
    ensures |r| > 0 ==> Allowed(r[0])
    ensures forall i :: 0 <= i < |s| - |r| ==> !Allowed(s[i])
    decreases |s|
  {
    if |s| == 0 || Allowed(s[0]) then s else SkipRun(s[1..])
  }

  /** What `SkipRun` leaves is the rest of `s`, after the skipped run. */
  lemma {:induction false} SkipRunSuffix(s: string)
    ensures SkipRun(s) == s[|s| - |SkipRun(s)|..]
    decreases |s|
  {
    if |s| > 0 && !Allowed(s[0]) {
      SkipRunSuffix(s[1..]);
      assert s[1..][|s| - 1 - |SkipRun(s)|..] == s[|s| - |SkipRun(s)|..];
    }
  }

  /** `replace(/[^a-z0-9æøå]+/g, "-")`: every maximal run of characters
      outside the class becomes one '-'. */
  function Collapse(s: string): string
    decreases |s|
  {
    if |s| == 0 then ""
    else if Allowed(s[0]) then [s[0]] + Collapse(s[1..])
    else "-" + Collapse(SkipRun(s[1..]))
  }

  /** `replace(/(^-|-$)/g, "")`: one leading and one trailing '-' go. */
  function Trim(s: string): (r: string)
    ensures |r| <= |s|
    ensures r == s || r == s[1..] || r == s[..|s| - 1] || (|s| >= 2 && r == s[1..|s| - 1])
    ensures r != s ==> |s| > 0 && (s[0] == '-' || s[|s| - 1] == '-')
  {
    var t := if |s| > 0 && s[0] == '-' then s[1..] else s;
    if |t| > 0 && t[|t| - 1] == '-' then t[..|t| - 1] else t
  }

  /** The slug of a title. */
  function MakeSlug(title: string): string {
    Trim(Collapse(Lower(title)))
  }

  /** The shape every slug has: only class characters and '-', no two
      '-' in a row, and no '-' at either end. */
  predicate WellFormed(s: string) {
    && (forall i :: 0 <= i < |s| ==> Allowed(s[i]) || s[i] == '-')
    && (forall i :: 0 <= i < |s| - 1 ==> !(s[i] == '-' && s[i + 1] == '-'))
    && (|s| > 0 ==> s[0] != '-' && s[|s| - 1] != '-')
  }

  /** The characters of `s` in the class, in order. */
  function Kept(s: string): string
    decreases |s|
  {
    if |s| == 0 then "" else (if Allowed(s[0]) then [s[0]] else "") + Kept(s[1..])
  }

  /** `s` with every '-' removed. */
  function Undash(s: string): string
    decreases |s|
  {
    if |s| == 0 then "" else (if s[0] == '-' then "" else [s[0]]) + Undash(s[1..])
  }

  // ---- The same collapse, as one left-to-right pass ----

  /** A scanner over `s` that copies class characters to `acc` and writes
      a '-' for a character outside the class unless `acc` already ends
      with one. */
  function Scan(acc: string, s: string): string
    decreases |s|
  {
    if |s| == 0 then acc
    else if Allowed(s[0]) then Scan(acc + [s[0]], s[1..])
    else if |acc| > 0 && acc[|acc| - 1] == '-' then Scan(acc, s[1..])
    else Scan(acc + "-", s[1..])
  }

  /** The scanner computes the run-by-run collapse when it is not in the
      middle of a run. */
  lemma {:induction false} ScanIsCollapse(acc: string, s: string)
    requires !(|acc| > 0 && acc[|acc| - 1] == '-')
    ensures Scan(acc, s) == acc + Collapse(s)
    decreases |s|
  {
    if |s| == 0 {
      assert acc + "" == acc;
    } else if Allowed(s[0]) {
      var acc' := acc + [s[0]];
      assert Scan(acc, s) == Scan(acc', s[1..]);
      ScanIsCollapse(acc', s[1..]);
      assert acc' + Collapse(s[1..]) == acc + ([s[0]] + Collapse(s[1..]));
    } else {
      var acc' := acc + "-";
      assert Scan(acc, s) == Scan(acc', s[1..]);
      assert Collapse(s) == "-" + Collapse(SkipRun(s[1..]));
      ScanAfterDash(acc', s[1..]);
      assert acc' + Collapse(SkipRun(s[1..])) == acc + ("-" + Collapse(SkipRun(s[1..])));
    }
  }

  /** After writing a '-', the scanner finishes the run it is in before
      copying again. */
  lemma {:induction false} ScanAfterDash(acc: string, s: string)
    requires |acc| > 0 && acc[|acc| - 1] == '-'
    ensures Scan(acc, s) == acc + Collapse(SkipRun(s))
    decreases |s|
  {
    if |s| == 0 {
      assert acc + "" == acc;
    } else if Allowed(s[0]) {
      var acc' := acc + [s[0]];
      ScanIsCollapse(acc', s[1..]);
      assert acc' + Collapse(s[1..]) == acc + ([s[0]] + Collapse(s[1..]));
    } else {
      ScanAfterDash(acc, s[1..]);
    }
  }

  /** A fresh scan is the collapse. */
  lemma ScanFromEmpty(s: string)
    ensures Scan("", s) == Collapse(s)
  {
    ScanIsCollapse("", s);
    assert "" + Collapse(s) == Collapse(s);
  }

  // ---- Properties of the collapse ----

  /** The collapse writes only class characters and '-', never two '-' in
      a row, and starts with '-' exactly when the input starts outside the
      class. */
  lemma {:induction false} CollapseShape(s: string)
    ensures var c := Collapse(s);
      && (forall i :: 0 <= i < |c| ==> Allowed(c[i]) || c[i] == '-')
      && (forall i :: 0 <= i < |c| - 1 ==> !(c[i] == '-' && c[i + 1] == '-'))
      && (|c| > 0 <==> |s| > 0)
      && (|c| > 0 ==> (c[0] == '-' <==> !Allowed(s[0])))
    decreases |s|
  {
    if |s| > 0 {
      if Allowed(s[0]) {
        CollapseShape(s[1..]);
      } else {
        var r := SkipRun(s[1..]);
        CollapseShape(r);
        var c := Collapse(s);
        assert c == "-" + Collapse(r);
        forall i | 0 <= i < |c| - 1
          ensures !(c[i] == '-' && c[i + 1] == '-')
        {
          if i > 0 {
            assert c[i] == Collapse(r)[i - 1] && c[i + 1] == Collapse(r)[i];
          }
        }
      }
    }
  }

  /** Removing the '-' from the collapse leaves exactly the class
      characters of the input, in order. */
  lemma {:induction false} CollapseKeeps(s: string)
    ensures Undash(Collapse(s)) == Kept(s)
    decreases |s|
  {
    if |s| > 0 {
      if Allowed(s[0]) {
        CollapseKeeps(s[1..]);
        assert ([s[0]] + Collapse(s[1..]))[1..] == Collapse(s[1..]);
      } else {
        var r := SkipRun(s[1..]);
        CollapseKeeps(r);
        assert ("-" + Collapse(r))[1..] == Collapse(r);
        SkipRunKept(s[1..]);
      }
    }
  }

  /** A run outside the class contributes nothing to `Kept`. */
  lemma {:induction false} SkipRunKept(s: string)
    ensures Kept(SkipRun(s)) == Kept(s)
    decreases |s|
  {
    if |s| > 0 && !Allowed(s[0]) {
      SkipRunKept(s[1..]);
    }
  }

  /** A well-formed string collapses to itself: each of its '-' is a run of
      one, followed by a class character. */
  lemma {:induction false} CollapseWellFormed(s: string)
    requires forall i :: 0 <= i < |s| ==> Allowed(s[i]) || s[i] == '-'
    requires forall i :: 0 <= i < |s| - 1 ==> !(s[i] == '-' && s[i + 1] == '-')
    requires |s| > 0 ==> s[|s| - 1] != '-'
    ensures Collapse(s) == s
    decreases |s|
  {
    if |s| > 0 {
      var t := s[1..];
      assert forall i :: 0 <= i < |t| ==> t[i] == s[i + 1];
      if Allowed(s[0]) {
        CollapseWellFormed(t);
        assert [s[0]] + t == s;
      } else {
        assert s[0] == '-' && |t| > 0 && Allowed(t[0]);
        assert SkipRun(t) == t;
        CollapseWellFormed(t);
        assert "-" + t == s;
      }
    }
  }

  // ---- Properties of the slug ----

  /** Trimming a collapse leaves it well formed. */
  lemma TrimShape(c: string)
    requires forall i :: 0 <= i < |c| ==> Allowed(c[i]) || c[i] == '-'
    requires forall i :: 0 <= i < |c| - 1 ==> !(c[i] == '-' && c[i + 1] == '-')
    ensures WellFormed(Trim(c))
  {
    var t := if |c| > 0 && c[0] == '-' then c[1..] else c;
    TrimStart(c, t);
    TrimEnd(t);
  }

  /** Dropping a leading '-' from a collapse leaves a collapse that does not
      start with '-'. */
  lemma TrimStart(c: string, t: string)
    requires forall i :: 0 <= i < |c| ==> Allowed(c[i]) || c[i] == '-'
    requires forall i :: 0 <= i < |c| - 1 ==> !(c[i] == '-' && c[i + 1] == '-')
    requires t == if |c| > 0 && c[0] == '-' then c[1..] else c
    ensures forall i :: 0 <= i < |t| ==> Allowed(t[i]) || t[i] == '-'
    ensures forall i :: 0 <= i < |t| - 1 ==> !(t[i] == '-' && t[i + 1] == '-')
    ensures |t| > 0 ==> t[0] != '-'
  {
    var k := |c| - |t|;
    assert forall i :: 0 <= i < |t| ==> t[i] == c[i + k];
  }

  /** Dropping a trailing '-' from a collapse that does not start with '-'
      leaves it well formed. */
  lemma TrimEnd(t: string)
    requires forall i :: 0 <= i < |t| ==> Allowed(t[i]) || t[i] == '-'
    requires forall i :: 0 <= i < |t| - 1 ==> !(t[i] == '-' && t[i + 1] == '-')
    requires |t| > 0 ==> t[0] != '-'
    ensures WellFormed(if |t| > 0 && t[|t| - 1] == '-' then t[..|t| - 1] else t)
  {
    var r := if |t| > 0 && t[|t| - 1] == '-' then t[..|t| - 1] else t;
    assert forall i :: 0 <= i < |r| ==> r[i] == t[i];
  }

  /** Every slug is well formed; a title with no class character, such as
      one of punctuation only, gives the empty slug. */
  lemma SlugWellFormed(title: string)
    ensures WellFormed(MakeSlug(title))
    ensures Kept(Lower(title)) == "" ==> MakeSlug(title) == ""
  {
    var c := Collapse(Lower(title));
    CollapseShape(Lower(title));
    TrimShape(c);
    if Kept(Lower(title)) == "" {
      CollapseKeeps(Lower(title));
      NoKeptAllDashes(c);
    }
  }

  /** A string whose '-'-free part is empty and with no two '-' in a row
      is empty or a lone '-'. */
  lemma NoKeptAllDashes(c: string)
    requires Undash(c) == ""
    requires forall i :: 0 <= i < |c| - 1 ==> !(c[i] == '-' && c[i + 1] == '-')
    ensures |c| <= 1
  {
    if |c| > 1 {
      UndashEmpty(c);
      assert false;
    }
  }

  /** A string with no '-'-free part is all '-'. */
  lemma {:induction false} UndashEmpty(c: string)
    requires Undash(c) == ""
    ensures forall i :: 0 <= i < |c| ==> c[i] == '-'
    decreases |c|
  {
    if |c| > 0 {
      UndashEmpty(c[1..]);
      assert forall i :: 1 <= i < |c| ==> c[i] == c[1..][i - 1];
    }
  }

  /** The slug, read without its '-', is the title's class characters in
      lower case, in order: nothing is reordered or lost but the dropped
      characters. */
  lemma SlugKeeps(title: string)
    ensures Undash(MakeSlug(title)) == Kept(Lower(title))
  {
    var c := Collapse(Lower(title));
    CollapseKeeps(Lower(title));
    TrimKeeps(c);
  }

  /** Trimming only removes '-'. */
  lemma TrimKeeps(s: string)
    ensures Undash(Trim(s)) == Undash(s)
  {
    var t := if |s| > 0 && s[0] == '-' then s[1..] else s;
    if |s| > 0 && s[0] == '-' {
      assert Undash(s) == Undash(s[1..]);
    }
    if |t| > 0 && t[|t| - 1] == '-' {
      UndashAppend(t[..|t| - 1], "-");
      assert t[..|t| - 1] + "-" == t;
    }
  }

  lemma {:induction false} UndashAppend(a: string, b: string)
    ensures Undash(a + b) == Undash(a) + Undash(b)
    decreases |a|
  {
    if |a| == 0 {
      assert a + b == b;
    } else {
      assert (a + b)[1..] == a[1..] + b;
      UndashAppend(a[1..], b);
    }
  }

  /** Class characters and '-' are already lower case. */
  lemma LowerWellFormed(s: string)
    requires forall i :: 0 <= i < |s| ==> Allowed(s[i]) || s[i] == '-'
    ensures Lower(s) == s
  {
  }

  /** Slugging a slug gives it back. */
  lemma SlugIdempotent(title: string)
    ensures MakeSlug(MakeSlug(title)) == MakeSlug(title)
  {
    var s := MakeSlug(title);
    SlugWellFormed(title);
    LowerWellFormed(s);
    CollapseWellFormed(s);
  }

  // ---- The pre-save hook ----

  /** The two fields of a book the hook reads and writes. */
  datatype Book = Book(title: string, slug: Option<string>)

  /** The `pre("save")` hook: the slug is recomputed when the title was
      modified and is not empty; otherwise the book is saved as it is. */
  function PreSave(book: Book, titleModified: bool): (r: Book)
    ensures r.title == book.title
    ensures titleModified && book.title != "" ==> r.slug == Some(MakeSlug(book.title)) && WellFormed(r.slug.value)
    ensures !(titleModified && book.title != "") ==> r == book
  {
    if titleModified && book.title != "" then
      SlugWellFormed(book.title);
      book.(slug := Some(MakeSlug(book.title)))
    else book
  }
}
