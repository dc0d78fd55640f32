/**
 * `generate_thumbnails` (`helpers.py`): every listed picture whose name does not start with
 * '.', that still exists and has no thumbnail yet, gets a thumbnail of the same name in the
 * thumbnail folder. The folders are sets of names; `decodes` says whether PIL can open a file.
 * The first file it cannot open raises, and the rest of the listing is not processed.
 */
module Thumbnails {
  import opened Text

  /** The list comprehension of `generate_thumbnails`: the listing without hidden names, in listing order. */
  function Visible(listing: seq<string>): (r: seq<string>)
    ensures forall x :: x in r <==> x in listing && !IsHidden(x)
    ensures |r| <= |listing|
  {
    if listing == [] then []
    else (if IsHidden(listing[0]) then [] else [listing[0]]) + Visible(listing[1..])
  }

  /** Filtering keeps the listing's order: it distributes over concatenation. */
  lemma {:induction false} VisibleAppend(a: seq<string>, b: seq<string>)
    ensures Visible(a + b) == Visible(a) + Visible(b)
    decreases |a|
  {
    if a == [] {
      assert a + b == b;
    } else {
      assert (a + b)[0] == a[0] && (a + b)[1..] == a[1..] + b;
      VisibleAppend(a[1..], b);
    }
  }

  /** A listing with no two equal names keeps that property when filtered. */
  lemma {:induction false} VisibleDistinct(listing: seq<string>)
    requires Distinct(listing)
    ensures Distinct(Visible(listing))
    decreases |listing|
  {
    if listing != [] {
      assert Distinct(listing[1..]) by {
        forall i, j | 0 <= i < j < |listing[1..]| ensures listing[1..][i] != listing[1..][j] {
          assert listing[1..][i] == listing[i + 1] && listing[1..][j] == listing[j + 1];
        }
      }
      VisibleDistinct(listing[1..]);
      var rest := Visible(listing[1..]);
      var head: seq<string> := if IsHidden(listing[0]) then [] else [listing[0]];
      assert listing[0] !in listing[1..];
      assert listing[0] !in rest;
      forall i, j | 0 <= i < j < |head + rest| ensures (head + rest)[i] != (head + rest)[j] {
        if i < |head| {
          assert (head + rest)[j] in rest;
        } else {
          assert (head + rest)[i] == rest[i - |head|] && (head + rest)[j] == rest[j - |head|];
        }
      }
    }
  }

  /** The test in `generate_thumbnails`' loop: a file needs a thumbnail when the original exists and no thumbnail of that name does. */
  predicate Needs(name: string, images: set<string>, thumbs: set<string>) {
    name in images && name !in thumbs
  }

  /**
   * The loop of `generate_thumbnails` over the given names: the names whose thumbnails are written, in order, and
   * whether the pass ran to the end. Each written thumbnail counts as existing for later names.
   */
  function Pass(names: seq<string>, images: set<string>, thumbs: set<string>, decodes: string -> bool): (r: (seq<string>, bool))
    decreases |names|
  {
    if names == [] then ([], true)
    else
      var n := names[0];
      if Needs(n, images, thumbs) then
        if decodes(n) then
          var rest := Pass(names[1..], images, thumbs + {n}, decodes);
          ([n] + rest.0, rest.1)
        else ([], false)
      else Pass(names[1..], images, thumbs, decodes)
  }

  /**
   * Only names whose original exists, that had no thumbnail and that open are written, each
   * once; the pass completes exactly when every name that needs a thumbnail opens, and then
   * it has written all of them.
   */
  lemma {:induction false} PassWrites(names: seq<string>, images: set<string>, thumbs: set<string>, decodes: string -> bool)
    ensures var r := Pass(names, images, thumbs, decodes);
            && (forall x :: x in r.0 ==> x in names && Needs(x, images, thumbs) && decodes(x))
            && Distinct(r.0)
            && (r.1 <==> forall x :: x in names && Needs(x, images, thumbs) ==> decodes(x))
            && (r.1 ==> forall x :: x in names && Needs(x, images, thumbs) ==> x in r.0)
    decreases |names|
  {
    if names != [] {
      var n := names[0];
      assert forall x :: x in names <==> x == n || x in names[1..];
      if Needs(n, images, thumbs) {
        if decodes(n) {
          PassWrites(names[1..], images, thumbs + {n}, decodes);
          var rest := Pass(names[1..], images, thumbs + {n}, decodes);
          assert n !in rest.0;
          assert forall i :: 0 < i < |[n] + rest.0| ==> ([n] + rest.0)[i] == rest.0[i - 1];
        }
      } else {
        PassWrites(names[1..], images, thumbs, decodes);
      }
    }
  }

  /**
   * `generate_thumbnails(img_dir, thumb_dir)`: the names written, the thumbnail folder
   * afterwards, and whether no file failed to open.
   */
  method GenerateThumbnails(listing: seq<string>, images: set<string>, thumbs: set<string>, decodes: string -> bool)
    returns (written: seq<string>, newThumbs: set<string>, ok: bool)
    ensures (written, ok) == Pass(Visible(listing), images, thumbs, decodes)
    ensures newThumbs == thumbs + Elements(written)
  {
    var files := Visible(listing);
    ghost var whole := Pass(files, images, thumbs, decodes);
    written, newThumbs, ok := [], thumbs, true;
    var i := 0;
    assert files[0..] == files && [] + whole.0 == whole.0;
    while i < |files|
      invariant 0 <= i <= |files|
      invariant newThumbs == thumbs + Elements(written)
      invariant Completes(written, Pass(files[i..], images, newThumbs, decodes), whole)
    {
      var filename := files[i];
      if filename in images && filename !in newThumbs {
        if !decodes(filename) {
          FailStep(files, i, images, newThumbs, decodes, written, whole);
          return written, newThumbs, false;
        }
        WriteStep(files, i, images, newThumbs, decodes, written, whole);
        ElementsSnoc(written, filename);
        newThumbs := newThumbs + {filename};
        written := written + [filename];
      } else {
        SkipStep(files, i, images, newThumbs, decodes, written, whole);
      }
      i := i + 1;
    }
    assert files[i..] == [] && written + [] == written;
  }

  /** The names written so far followed by what the rest of the pass writes make up the whole pass. */
  ghost predicate Completes(written: seq<string>, rest: (seq<string>, bool), whole: (seq<string>, bool)) {
    written + rest.0 == whole.0 && rest.1 == whole.1
  }

  lemma SkipStep(files: seq<string>, i: int, images: set<string>, thumbs: set<string>, decodes: string -> bool,
                 written: seq<string>, whole: (seq<string>, bool))
    requires 0 <= i < |files| && !Needs(files[i], images, thumbs)
    requires Completes(written, Pass(files[i..], images, thumbs, decodes), whole)
    ensures Completes(written, Pass(files[i + 1..], images, thumbs, decodes), whole)
  {
    PassUnfold(files[i..], images, thumbs, decodes);
    assert files[i..][0] == files[i] && files[i..][1..] == files[i + 1..];
  }

  lemma WriteStep(files: seq<string>, i: int, images: set<string>, thumbs: set<string>, decodes: string -> bool,
                  written: seq<string>, whole: (seq<string>, bool))
    requires 0 <= i < |files| && Needs(files[i], images, thumbs) && decodes(files[i])
    requires Completes(written, Pass(files[i..], images, thumbs, decodes), whole)
    ensures Completes(written + [files[i]], Pass(files[i + 1..], images, thumbs + {files[i]}, decodes), whole)
  {
    PassUnfold(files[i..], images, thumbs, decodes);
    assert files[i..][0] == files[i] && files[i..][1..] == files[i + 1..];
    var rest := Pass(files[i + 1..], images, thumbs + {files[i]}, decodes);
    assert written + [files[i]] + rest.0 == written + ([files[i]] + rest.0);
  }

  lemma FailStep(files: seq<string>, i: int, images: set<string>, thumbs: set<string>, decodes: string -> bool,
                 written: seq<string>, whole: (seq<string>, bool))
    requires 0 <= i < |files| && Needs(files[i], images, thumbs) && !decodes(files[i])
    requires Completes(written, Pass(files[i..], images, thumbs, decodes), whole)
    ensures whole == (written, false)
  {
    PassUnfold(files[i..], images, thumbs, decodes);
    assert files[i..][0] == files[i];
    assert written + [] == written;
  }

  /** One step of the pass, as the loop takes it. */
  lemma PassUnfold(names: seq<string>, images: set<string>, thumbs: set<string>, decodes: string -> bool)
    requires names != []
    ensures Pass(names, images, thumbs, decodes)
            == if !Needs(names[0], images, thumbs) then Pass(names[1..], images, thumbs, decodes)
               else if !decodes(names[0]) then ([], false)
               else var rest := Pass(names[1..], images, thumbs + {names[0]}, decodes);
                    ([names[0]] + rest.0, rest.1)
  {
  }

  /** The hidden-name filter holds for the whole helper: no hidden name is ever written. */
  lemma NoHiddenWritten(listing: seq<string>, images: set<string>, thumbs: set<string>, decodes: string -> bool)
    ensures forall x :: x in Pass(Visible(listing), images, thumbs, decodes).0 ==> x in listing && !IsHidden(x)
  {
    PassWrites(Visible(listing), images, thumbs, decodes);
  }

  /** Names that are already done are not written again: a second pass after a complete one writes nothing. */
  lemma SecondPassWritesNothing(names: seq<string>, images: set<string>, thumbs: set<string>, decodes: string -> bool)
    requires Pass(names, images, thumbs, decodes).1
    ensures var after := thumbs + Elements(Pass(names, images, thumbs, decodes).0);
            Pass(names, images, after, decodes) == ([], true)
  {
    PassWrites(names, images, thumbs, decodes);
    var after := thumbs + Elements(Pass(names, images, thumbs, decodes).0);
    assert forall x :: x in names ==> !Needs(x, images, after);
    NothingNeeded(names, images, after, decodes);
  }

  /** When no listed name needs a thumbnail the pass writes nothing and completes. */
  lemma {:induction false} NothingNeeded(names: seq<string>, images: set<string>, thumbs: set<string>, decodes: string -> bool)
    requires forall x :: x in names ==> !Needs(x, images, thumbs)
    ensures Pass(names, images, thumbs, decodes) == ([], true)
    decreases |names|
  {
    if names != [] {
      assert names[0] in names;
      NothingNeeded(names[1..], images, thumbs, decodes);
    }
  }

  /** What is needed beforehand, in listing order; with distinct names this is what a complete pass writes. */
  function NeededIn(names: seq<string>, images: set<string>, thumbs: set<string>): (r: seq<string>)
    ensures forall x :: x in r <==> x in names && Needs(x, images, thumbs)
  {
    if names == [] then []
    else (if Needs(names[0], images, thumbs) then [names[0]] else []) + NeededIn(names[1..], images, thumbs)
  }

  /** A thumbnail of a name that is listed no more does not change what the rest needs. */
  lemma {:induction false} NeededInIgnores(names: seq<string>, images: set<string>, thumbs: set<string>, n: string)
    requires n !in names
    ensures NeededIn(names, images, thumbs + {n}) == NeededIn(names, images, thumbs)
    decreases |names|
  {
    if names != [] {
      NeededInIgnores(names[1..], images, thumbs, n);
    }
  }

  /** A complete pass over distinct names writes exactly the needed ones, in the order listed. */
  lemma {:induction false} PassInOrder(names: seq<string>, images: set<string>, thumbs: set<string>, decodes: string -> bool)
    requires Distinct(names) && Pass(names, images, thumbs, decodes).1
    ensures Pass(names, images, thumbs, decodes).0 == NeededIn(names, images, thumbs)
    decreases |names|
  {
    if names != [] {
      var n := names[0];
      assert Distinct(names[1..]) by {
        forall i, j | 0 <= i < j < |names[1..]| ensures names[1..][i] != names[1..][j] {
          assert names[1..][i] == names[i + 1] && names[1..][j] == names[j + 1];
        }
      }
      if Needs(n, images, thumbs) {
        PassInOrder(names[1..], images, thumbs + {n}, decodes);
        assert n !in names[1..];
        NeededInIgnores(names[1..], images, thumbs, n);
      } else {
        PassInOrder(names[1..], images, thumbs, decodes);
      }
    }
  }

  /** The whole helper writes, for a complete run, the visible needed names in listing order. */
  lemma CompleteRun(listing: seq<string>, images: set<string>, thumbs: set<string>, decodes: string -> bool)
    requires Distinct(listing) && Pass(Visible(listing), images, thumbs, decodes).1
    ensures Pass(Visible(listing), images, thumbs, decodes).0 == NeededIn(Visible(listing), images, thumbs)
  {
    VisibleDistinct(listing);
    PassInOrder(Visible(listing), images, thumbs, decodes);
  }
}
