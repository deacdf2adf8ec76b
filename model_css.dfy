/**
 * The note type's stylesheet as the editor injects it: every `.card` selector is
 * rescoped to the editable container, and a fixed stylesheet stands in when the
 * note type's css cannot be read.
 */
module ModelCss {
  import opened Wrappers

  /** The selector the card templates style. */
  const CardSelector: string := ".card"
  /** What the editor puts in its place (note the trailing space). */
  const EditableSelector: string := ".note-editable "

  /** The stylesheet used when the note type's css cannot be read. */
  const DefaultCss: string :=
    ".note-editable {\n"
    + " font-family: arial;\n"
    + " font-size: 20px;\n"
    + " text-align: center;\n"
    + " color: black;\n"
    + " background-color: white;\n }"

  /** `target` occurs in `s` starting at position `i`. */
  predicate OccursAt(s: string, target: string, i: int)
  {
    0 <= i && i + |target| <= |s| && s[i..i + |target|] == target
  }

  /** `target` occurs nowhere in `s`. */
  predicate Free(s: string, target: string)
  {
    forall i | 0 <= i <= |s| - |target| :: !OccursAt(s, target, i)
  }

  /**
   * Java's `String.replace(CharSequence, CharSequence)`: scans left to right and
   * replaces each occurrence of `target`, resuming after it, so occurrences never overlap.
   */
  function Replace(s: string, target: string, replacement: string): string
    requires |target| > 0
    decreases |s|
  {
    if |s| < |target| then s
    else if s[..|target|] == target then replacement + Replace(s[|target|..], target, replacement)
    else [s[0]] + Replace(s[1..], target, replacement)
  }

  /**
   * Occurrences in the tail are the occurrences in `s` past position 0, shifted by one.
   * The assertion in the body only spells out that index shift.
   */
  lemma TailOccurrence(s: string, target: string, i: int)
    requires |s| > 0 && i >= 0
    ensures OccursAt(s[1..], target, i) <==> OccursAt(s, target, i + 1)
  {
    if 0 <= i && i + |target| <= |s| - 1 {
      assert s[1..][i..i + |target|] == s[i + 1..i + 1 + |target|];
    }
  }

  /** A stylesheet without any `target` comes back unchanged. */
  lemma {:induction false} FreeUnchanged(s: string, target: string, replacement: string)
    requires |target| > 0
    requires Free(s, target)
    ensures Replace(s, target, replacement) == s
  {
    if |s| >= |target| {
      assert !OccursAt(s, target, 0);
      forall i | 0 <= i <= |s[1..]| - |target|
        ensures !OccursAt(s[1..], target, i)
      {
        TailOccurrence(s, target, i);
      }
      FreeUnchanged(s[1..], target, replacement);
    }
  }

  /**
   * With a replacement longer than the target, the text grows exactly when it holds
   * an occurrence; it never shrinks.
   */
  lemma {:induction false} ReplaceGrows(s: string, target: string, replacement: string)
    requires 0 < |target| < |replacement|
    ensures |Replace(s, target, replacement)| >= |s|
    ensures !Free(s, target) ==> |Replace(s, target, replacement)| > |s|
  {
    if |s| < |target| {
      assert Free(s, target);
    } else if s[..|target|] == target {
      ReplaceGrows(s[|target|..], target, replacement);
    } else {
      ReplaceGrows(s[1..], target, replacement);
      if !Free(s, target) {
        var i :| 0 <= i <= |s| - |target| && OccursAt(s, target, i);
        assert i > 0;
        TailOccurrence(s, target, i - 1);
      }
    }
  }

  /** Rescoping `.card` to the editable container. */
  function Rescope(css: string): string
  {
    Replace(css, CardSelector, EditableSelector)
  }

  /** A prefix of the rescoped text that holds no '.' was already a prefix of the input. */
  lemma {:induction false} RescopeKeepsDotFreePrefix(t: string, w: string)
    ensures '.' !in w && w <= Rescope(t) ==> w <= t
  {
    if |w| > 0 && |t| >= |CardSelector| {
      if t[..|CardSelector|] == CardSelector {
        assert Rescope(t)[0] == '.';
      } else {
        assert Rescope(t) == [t[0]] + Rescope(t[1..]);
        RescopeKeepsDotFreePrefix(t[1..], w[1..]);
        if w <= Rescope(t) {
          assert w[1..] <= Rescope(t[1..]);
        }
      }
    }
  }

  /** Every `.card` is replaced: none is left over, nor formed at the seams. */
  lemma {:induction false} RescopeLeavesNoCard(s: string)
    ensures Free(Rescope(s), CardSelector)
  {
    var r := Rescope(s);
    if |s| < |CardSelector| {
      assert r == s;
    } else if s[..|CardSelector|] == CardSelector {
      var rest := Rescope(s[|CardSelector|..]);
      RescopeLeavesNoCard(s[|CardSelector|..]);
      assert r == EditableSelector + rest;
      forall i | 0 <= i <= |r| - |CardSelector|
        ensures !OccursAt(r, CardSelector, i)
      {
        if i >= |EditableSelector| {
          var j := i - |EditableSelector|;
          assert !OccursAt(rest, CardSelector, j);
          assert r[i..i + |CardSelector|] == rest[j..j + |CardSelector|];
        } else if i == 0 {
          assert r[1] == EditableSelector[1] == 'n';
          assert r[i..i + |CardSelector|][1] == 'n';
        } else {
          assert EditableSelector[1..] == "note-editable ";
          assert '.' !in EditableSelector[1..];
          assert r[i] == EditableSelector[1..][i - 1];
          assert r[i..i + |CardSelector|][0] == r[i];
        }
      }
    } else {
      var rest := Rescope(s[1..]);
      RescopeLeavesNoCard(s[1..]);
      assert r == [s[0]] + rest;
      assert r[1..] == rest;
      forall i | 0 <= i <= |r| - |CardSelector|
        ensures !OccursAt(r, CardSelector, i)
      {
        if i > 0 {
          TailOccurrence(r, CardSelector, i - 1);
        } else {
          RescopeKeepsDotFreePrefix(s[1..], "card");
          assert '.' !in "card";
          assert r[..5] == [s[0]] + rest[..4];
          assert s[..5] == [s[0]] + s[1..][..4];
        }
      }
    }
  }

  /**
   * getModelCss: `css` is the note type's css, or None when reading it failed.
   * The result is the rescoped css, which holds no `.card` and equals the input
   * exactly when the input held none; on failure it is the default stylesheet.
   */
  function GetModelCss(css: Option<string>): (r: string)
    ensures css.None? ==> r == DefaultCss
    ensures css.Some? ==> Free(r, CardSelector)
    ensures css.Some? ==> (r == css.value <==> Free(css.value, CardSelector))
  {
    match css
    case None => DefaultCss
    case Some(c) =>
      RescopeLeavesNoCard(c);
      ReplaceGrows(c, CardSelector, EditableSelector);
      if Free(c, CardSelector) then FreeUnchanged(c, CardSelector, EditableSelector); Rescope(c)
      else Rescope(c)
  }
}
