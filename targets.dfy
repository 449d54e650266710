/**
 * The batch target list (`self.batch_targets`): adding one URL from the entry
 * field, loading a file of URLs, deleting the selected rows and clearing it.
 */
module Targets {
  import opened Wrappers
  import opened Strings
  import opened Lists

  const Http: string := "http://"
  const Https: string := "https://"

  /** `url.startswith(('http://', 'https://'))`. */
  predicate HasScheme(url: string) {
    StartsWith(url, Http) || StartsWith(url, Https)
  }

  /** The URL a trimmed entry stands for: itself when it has a scheme, else with `http://` put in front. */
  function Normalize(url: string): (r: string)
    ensures HasScheme(r)
    ensures r == url || r == Http + url
  {
    if HasScheme(url) then url
    else
      assert (Http + url)[..|Http|] == Http;
      Http + url
  }

  /** A URL that has a scheme already is left alone, so normalising twice changes nothing. */
  lemma NormalizeIdempotent(url: string)
    ensures Normalize(Normalize(url)) == Normalize(url)
    ensures HasScheme(url) <==> Normalize(url) == url
  {
  }

  /** A line of a target file that names a target: not blank and not a `#` comment once trimmed. */
  predicate IsEntry(line: string) {
    var t := Strip(line);
    t != "" && !StartsWith(t, "#")
  }

  /** The URL that the entry line `line` contributes. */
  function UrlOf(line: string): string {
    Normalize(Strip(line))
  }

  /**
   * `new_targets` after the loop of `load_batch_targets` has read `lines`
   * with `existing` the list before the load: every entry line's URL, in file
   * order, unless it is already in the list or was seen earlier in the file.
   */
  function Fresh(existing: seq<string>, lines: seq<string>): seq<string>
    decreases |lines|
  {
    if lines == [] then []
    else
      var earlier := Fresh(existing, lines[..|lines| - 1]);
      var line := lines[|lines| - 1];
      if IsEntry(line) && UrlOf(line) !in existing && UrlOf(line) !in earlier
      then earlier + [UrlOf(line)]
      else earlier
  }

  /** What a load adds is new: URLs with a scheme, none already in the list, none twice. */
  lemma {:induction false} FreshNew(existing: seq<string>, lines: seq<string>)
    ensures var f := Fresh(existing, lines);
            && NoDuplicates(f)
            && forall k :: 0 <= k < |f| ==> HasScheme(f[k]) && f[k] !in existing
    decreases |lines|
  {
    if lines != [] {
      FreshNew(existing, lines[..|lines| - 1]);
    }
  }

  /** `url` is the URL of some entry line of `lines`. */
  ghost predicate FromEntry(lines: seq<string>, url: string) {
    exists i :: 0 <= i < |lines| && IsEntry(lines[i]) && UrlOf(lines[i]) == url
  }

  /** Everything a load adds is the URL of an entry line of the file. */
  lemma {:induction false} FreshSound(existing: seq<string>, lines: seq<string>)
    ensures forall url :: url in Fresh(existing, lines) ==> FromEntry(lines, url)
    decreases |lines|
  {
    if lines != [] {
      var init := lines[..|lines| - 1];
      FreshSound(existing, init);
      var line := lines[|lines| - 1];
      var earlier := Fresh(existing, init);
      var f := Fresh(existing, lines);
      var added := IsEntry(line) && UrlOf(line) !in existing && UrlOf(line) !in earlier;
      assert f == if added then earlier + [UrlOf(line)] else earlier;
      forall url | url in f ensures FromEntry(lines, url) {
        if url in earlier {
          assert FromEntry(init, url);
          var i :| 0 <= i < |init| && IsEntry(init[i]) && UrlOf(init[i]) == url;
          assert lines[i] == init[i];
        } else {
          assert IsEntry(lines[|lines| - 1]) && UrlOf(lines[|lines| - 1]) == url;
        }
      }
    }
  }

  /** After a load, the URL of every entry line of the file is in the list. */
  lemma {:induction false} FreshComplete(existing: seq<string>, lines: seq<string>)
    ensures forall i :: 0 <= i < |lines| && IsEntry(lines[i]) ==>
              UrlOf(lines[i]) in existing || UrlOf(lines[i]) in Fresh(existing, lines)
    decreases |lines|
  {
    if lines != [] {
      var init := lines[..|lines| - 1];
      FreshComplete(existing, init);
      var line := lines[|lines| - 1];
      var earlier := Fresh(existing, init);
      var f := Fresh(existing, lines);
      var added := IsEntry(line) && UrlOf(line) !in existing && UrlOf(line) !in earlier;
      assert f == if added then earlier + [UrlOf(line)] else earlier;
      assert forall u :: u in earlier ==> u in f;
      forall i | 0 <= i < |lines| && IsEntry(lines[i])
        ensures UrlOf(lines[i]) in existing || UrlOf(lines[i]) in f
      {
        if i < |init| {
          assert lines[i] == init[i];
          var u := UrlOf(init[i]);
          assert u in existing || u in earlier;
        } else {
          assert lines[i] == line;
          var u := UrlOf(line);
          if added {
            assert f[|f| - 1] == u;
          } else if u !in existing {
            assert u in earlier;
            }
        }
      }
    }
  }

  /** Loading `a` and then `b` adds what loading the lines of both in one file adds. */
  lemma {:induction false} FreshAppend(existing: seq<string>, a: seq<string>, b: seq<string>)
    ensures Fresh(existing, a + b) == Fresh(existing, a) + Fresh(existing + Fresh(existing, a), b)
    decreases |b|
  {
    if b == [] {
      assert a + b == a;
    } else {
      var b0, line := b[..|b| - 1], b[|b| - 1];
      assert (a + b)[..|a + b| - 1] == a + b0;
      assert (a + b)[|a + b| - 1] == line;
      FreshAppend(existing, a, b0);
    }
  }

  /** A line that is blank or a comment contributes nothing, wherever it is. */
  lemma FreshSkipsNonEntry(existing: seq<string>, a: seq<string>, line: string, b: seq<string>)
    requires !IsEntry(line)
    ensures Fresh(existing, a + [line] + b) == Fresh(existing, a + b)
  {
    FreshAppend(existing, a + [line], b);
    FreshAppend(existing, a, b);
    assert (a + [line])[..|a + [line]| - 1] == a;
  }

  /** `strip()` removes the line break that `readlines()` leaves on a trimmed line. */
  lemma StripLine(t: string)
    requires t == "" || (!IsSpace(t[0]) && !IsSpace(t[|t| - 1]))
    ensures Strip(t + "\n") == t
  {
    var s := t + "\n";
    assert s[..|s| - 1] == t;
    if t == "" {
      assert AllSpace(s);
    } else {
      assert LeadingSpace(s) == 0;
      assert TrailingStart(t) == |t|;
      assert TrailingStart(s) == |t|;
      assert s[0..|t|] == t;
    }
  }

  /** One more line read by the loop of the load. */
  lemma FreshSnoc(existing: seq<string>, lines: seq<string>, line: string)
    ensures Fresh(existing, lines + [line]) ==
              if IsEntry(line) && UrlOf(line) !in existing && UrlOf(line) !in Fresh(existing, lines)
              then Fresh(existing, lines) + [UrlOf(line)]
              else Fresh(existing, lines)
  {
    assert (lines + [line])[..|lines|] == lines;
  }

  /** How the four lines of the example file are read. */
  lemma ExampleLines()
    ensures IsEntry("example.com\n") && UrlOf("example.com\n") == "http://example.com"
    ensures !IsEntry("#comment\n") && !IsEntry("\n")
    ensures IsEntry("https://foo.bar\n") && UrlOf("https://foo.bar\n") == "https://foo.bar"
  {
    ExampleBareHost();
    ExampleComment();
    ExampleFullUrl();
  }

  lemma ExampleBareHost()
    ensures IsEntry("example.com\n") && UrlOf("example.com\n") == "http://example.com"
  {
    StripLine("example.com");
    assert "example.com" + "\n" == "example.com\n";
    assert !HasScheme("example.com");
  }

  lemma ExampleComment()
    ensures !IsEntry("#comment\n") && !IsEntry("\n")
  {
    StripLine("#comment");
    assert "#comment" + "\n" == "#comment\n";
    StripLine("");
    assert "" + "\n" == "\n";
  }

  lemma ExampleFullUrl()
    ensures IsEntry("https://foo.bar\n") && UrlOf("https://foo.bar\n") == "https://foo.bar"
  {
    StripLine("https://foo.bar");
    assert "https://foo.bar" + "\n" == "https://foo.bar\n";
    assert HasScheme("https://foo.bar");
  }

  /** A file of an entry, a comment, a blank line and a second, different entry adds the two entries. */
  lemma TwoEntries(l0: string, l1: string, l2: string, l3: string)
    requires IsEntry(l0) && !IsEntry(l1) && !IsEntry(l2) && IsEntry(l3) && UrlOf(l0) != UrlOf(l3)
    ensures Fresh([], [l0, l1, l2, l3]) == [UrlOf(l0), UrlOf(l3)]
  {
    var u0, u3 := UrlOf(l0), UrlOf(l3);
    assert Fresh([], [l0]) == [u0] by {
      assert [] + [l0] == [l0];
      FreshSnoc([], [], l0);
    }
    assert Fresh([], [l0, l1]) == [u0] by {
      assert [l0] + [l1] == [l0, l1];
      FreshSnoc([], [l0], l1);
    }
    assert Fresh([], [l0, l1, l2]) == [u0] by {
      assert [l0, l1] + [l2] == [l0, l1, l2];
      FreshSnoc([], [l0, l1], l2);
    }
    assert [l0, l1, l2] + [l3] == [l0, l1, l2, l3];
    FreshSnoc([], [l0, l1, l2], l3);
  }

  /** The example file: `example.com`, a comment, an empty line and `https://foo.bar`. */
  lemma ExampleFile()
    ensures Fresh([], ["example.com\n", "#comment\n", "\n", "https://foo.bar\n"])
            == ["http://example.com", "https://foo.bar"]
  {
    ExampleLines();
    TwoEntries("example.com\n", "#comment\n", "\n", "https://foo.bar\n");
  }

  /** The list with the rows at the indices in `sel` (counted from `base`) taken out. */
  function Drop(xs: seq<string>, sel: set<nat>, base: nat): seq<string>
    decreases |xs|
  {
    if xs == [] then []
    else (if base in sel then [] else [xs[0]]) + Drop(xs[1..], sel, base + 1)
  }

  /** `xs` without the rows whose indices are in `sel`; indices past the end select nothing. */
  function Without(xs: seq<string>, sel: set<nat>): seq<string> {
    Drop(xs, sel, 0)
  }

  /** The selected indices that name a row of a list of length `n`. */
  function InRange(sel: set<nat>, n: nat): set<nat> {
    set i | i in sel && i < n
  }

  /** The selected indices in `[base, base + n)`. */
  function Between(sel: set<nat>, base: nat, n: nat): set<nat> {
    set i | i in sel && base <= i < base + n
  }

  /** Only the selected indices inside the list matter. */
  lemma {:induction false} DropAgree(xs: seq<string>, a: set<nat>, b: set<nat>, base: nat)
    requires forall i :: base <= i < base + |xs| ==> (i in a <==> i in b)
    ensures Drop(xs, a, base) == Drop(xs, b, base)
    decreases |xs|
  {
    if xs != [] {
      DropAgree(xs[1..], a, b, base + 1);
    }
  }

  /** Rows before the first selected index are kept as they are. */
  lemma {:induction false} DropPrefix(xs: seq<string>, sel: set<nat>, base: nat, k: nat)
    requires k <= |xs|
    requires forall i :: i in sel ==> !(base <= i < base + k)
    ensures Drop(xs, sel, base) == xs[..k] + Drop(xs[k..], sel, base + k)
    decreases k
  {
    if k > 0 {
      DropPrefix(xs[1..], sel, base + 1, k - 1);
      assert xs[1..][k - 1..] == xs[k..];
      assert xs[..k] == [xs[0]] + xs[1..][..k - 1];
    }
  }

  /** With nothing selected below `i`, the kept rows are the rows before `i`, row `i`, and the kept rows after it. */
  lemma WithoutAround(xs: seq<string>, sel: set<nat>, i: nat)
    requires i < |xs|
    requires forall j :: j in sel ==> j > i
    ensures Without(xs, sel) == xs[..i] + ([xs[i]] + Drop(xs[i + 1..], sel, i + 1))
  {
    DropPrefix(xs, sel, 0, i);
    assert xs[i..][1..] == xs[i + 1..];
  }

  /** Selecting row `i` as well leaves it out of the middle. */
  lemma WithoutAroundSelected(xs: seq<string>, sel: set<nat>, i: nat)
    requires i < |xs|
    requires forall j :: j in sel ==> j > i
    ensures Without(xs, sel + {i}) == xs[..i] + Drop(xs[i + 1..], sel, i + 1)
  {
    DropPrefix(xs, sel + {i}, 0, i);
    assert xs[i..][1..] == xs[i + 1..];
    DropAgree(xs[i + 1..], sel + {i}, sel, i + 1);
  }

  /** Cutting out the one element between a prefix and a suffix. */
  lemma CutMiddle(p: seq<string>, x: string, r: seq<string>)
    ensures (p + ([x] + r))[..|p|] == p
    ensures (p + ([x] + r))[|p| + 1..] == r
  {
  }

  /**
   * One turn of the descending loop: with the rows above `index` already
   * removed, `index` names a row of the current list exactly when it names
   * one of the original list, and popping it is removing it as well.
   */
  lemma PopStep(xs: seq<string>, done: set<nat>, index: nat)
    requires forall j :: j in done ==> j > index
    ensures index < |Without(xs, done)| <==> index < |xs|
    ensures index < |xs| ==>
              var current := Without(xs, done);
              Without(xs, done + {index}) == current[..index] + current[index + 1..]
    ensures index >= |xs| ==> Without(xs, done + {index}) == Without(xs, done)
  {
    WithoutProperties(xs, done);
    if index < |xs| {
      WithoutAround(xs, done, index);
      WithoutAroundSelected(xs, done, index);
      CutMiddle(xs[..index], xs[index], Drop(xs[index + 1..], done, index + 1));
    } else {
      DropAgree(xs, done + {index}, done, 0);
    }
  }

  /** Removing is a subsequence with one row less for every selected index inside the list. */
  lemma {:induction false} DropShape(xs: seq<string>, sel: set<nat>, base: nat)
    ensures Subsequence(Drop(xs, sel, base), xs)
    ensures |Drop(xs, sel, base)| + |Between(sel, base, |xs|)| == |xs|
    decreases |xs|
  {
    var counted := Between(sel, base, |xs|);
    if xs == [] {
      assert counted == {};
    } else {
      DropShape(xs[1..], sel, base + 1);
      var later := Between(sel, base + 1, |xs| - 1);
      var rest := Drop(xs[1..], sel, base + 1);
      if base in sel {
        assert counted == later + {base};
        assert base !in later;
        assert Drop(xs, sel, base) == rest;
      } else {
        assert counted == later;
        assert Drop(xs, sel, base) == [xs[0]] + rest;
        assert ([xs[0]] + rest)[1..] == rest;
      }
    }
  }

  /** `without` has exactly the rows of `xs` that are not selected, in order, and `removed` tells how many went. */
  lemma WithoutProperties(xs: seq<string>, sel: set<nat>)
    ensures Subsequence(Without(xs, sel), xs)
    ensures |Without(xs, sel)| == |xs| - |InRange(sel, |xs|)|
    ensures NoDuplicates(xs) ==> NoDuplicates(Without(xs, sel))
  {
    DropShape(xs, sel, 0);
    assert InRange(sel, |xs|) == Between(sel, 0, |xs|);
    if NoDuplicates(xs) {
      SubsequenceNoDuplicates(Without(xs, sel), xs);
    }
  }

  /** Removing rows keeps a list free of duplicates and of URLs without a scheme. */
  lemma WithoutValid(xs: seq<string>, sel: set<nat>)
    requires NoDuplicates(xs) && forall k :: 0 <= k < |xs| ==> HasScheme(xs[k])
    ensures var kept := Without(xs, sel);
            NoDuplicates(kept) && forall k :: 0 <= k < |kept| ==> HasScheme(kept[k])
  {
    var kept := Without(xs, sel);
    WithoutProperties(xs, sel);
    SubsequenceMembers(kept, xs);
    forall k | 0 <= k < |kept| ensures HasScheme(kept[k]) {
      assert kept[k] in xs;
    }
  }

  /** What `add_single_url` did. */
  datatype AddOutcome =
    | EmptyEntry          // the trimmed entry was empty: a warning, nothing added
    | Added(url: string)  // the URL was appended
    | AlreadyListed(url: string)  // the URL was in the list already: an info box, nothing added

  /** The list of targets of a batch scan. */
  class TargetList {
    var batchTargets: seq<string>

    /** Every target has a scheme and none is listed twice. */
    ghost predicate Valid()
      reads this
    {
      && NoDuplicates(batchTargets)
      && forall k :: 0 <= k < |batchTargets| ==> HasScheme(batchTargets[k])
    }

    constructor()
      ensures batchTargets == [] && Valid()
    {
      batchTargets := [];
    }

    /** `add_single_url`, for the text of the URL entry field. */
    method AddSingleUrl(entry: string) returns (outcome: AddOutcome)
      modifies this
      ensures Strip(entry) == "" ==> outcome == EmptyEntry && batchTargets == old(batchTargets)
      ensures Strip(entry) != "" && Normalize(Strip(entry)) in old(batchTargets) ==>
                outcome == AlreadyListed(Normalize(Strip(entry))) && batchTargets == old(batchTargets)
      ensures Strip(entry) != "" && Normalize(Strip(entry)) !in old(batchTargets) ==>
                outcome == Added(Normalize(Strip(entry))) && batchTargets == old(batchTargets) + [Normalize(Strip(entry))]
      ensures old(Valid()) ==> Valid()
    {
      var url := Strip(entry);
      if url == "" {
        return EmptyEntry;
      }
      if !HasScheme(url) {
        url := Http + url;
      }
      if url !in batchTargets {
        batchTargets := batchTargets + [url];
        outcome := Added(url);
      } else {
        outcome := AlreadyListed(url);
      }
    }

    /**
     * `load_batch_targets`, for the lines of the chosen file, or `None` when
     * reading it failed (then an error box is shown and the list is kept).
     * Returns the number of targets added (`valid_urls`).
     */
    method LoadBatchTargets(contents: Option<seq<string>>) returns (added: Option<nat>)
      modifies this
      ensures contents.None? ==> added.None? && batchTargets == old(batchTargets)
      ensures contents.Some? ==>
                && batchTargets == old(batchTargets) + Fresh(old(batchTargets), contents.value)
                && added == Some(|Fresh(old(batchTargets), contents.value)|)
      ensures old(Valid()) ==> Valid()
    {
      if contents.None? {
        return None;
      }
      var lines := contents.value;
      ghost var existing := batchTargets;
      var newTargets: seq<string> := [];
      var validUrls: nat := 0;
      for i := 0 to |lines|
        invariant batchTargets == existing
        invariant newTargets == Fresh(existing, lines[..i])
        invariant validUrls == |newTargets|
      {
        assert lines[..i + 1] == lines[..i] + [lines[i]];
        FreshSnoc(existing, lines[..i], lines[i]);
        var url := Strip(lines[i]);
        assert IsEntry(lines[i]) <==> url != "" && !StartsWith(url, "#");
        assert UrlOf(lines[i]) == if HasScheme(url) then url else Http + url;
        if url != "" && !StartsWith(url, "#") {
          if HasScheme(url) {
            if url !in batchTargets && url !in newTargets {
              newTargets := newTargets + [url];
              validUrls := validUrls + 1;
            }
          } else {
            var fullUrl := Http + url;
            if fullUrl !in batchTargets && fullUrl !in newTargets {
              newTargets := newTargets + [fullUrl];
              validUrls := validUrls + 1;
            }
          }
        }
      }
      assert lines[..|lines|] == lines;
      assert newTargets == Fresh(existing, lines);
      FreshNew(existing, lines);
      batchTargets := batchTargets + newTargets;
      added := Some(validUrls);
      assert forall k :: 0 <= k < |newTargets| ==> batchTargets[|existing| + k] == newTargets[k];
    }

    /**
     * `delete_selected_targets`, for the indices selected in the list box.
     * With nothing selected it only warns (`None`); otherwise it pops the
     * selected rows from the highest index down, skipping indices past the
     * end, and returns how many it removed (`removed_count`).
     */
    method DeleteSelectedTargets(selected: set<nat>) returns (removed: Option<nat>)
      modifies this
      ensures selected == {} ==> removed.None? && batchTargets == old(batchTargets)
      ensures selected != {} ==>
                && batchTargets == Without(old(batchTargets), selected)
                && removed == Some(|InRange(selected, |old(batchTargets)|)|)
      ensures old(Valid()) ==> Valid()
    {
      if selected == {} {
        return None;
      }
      ghost var original := batchTargets;
      DropPrefix(original, {}, 0, |original|);
      var pending := selected;
      assert selected - pending == {};
      var removedCount: nat := 0;
      while pending != {}
        invariant pending <= selected
        invariant forall i, j :: i in selected - pending && j in pending ==> j < i
        invariant batchTargets == Without(original, selected - pending)
        invariant removedCount + |batchTargets| == |original|
        decreases |pending|
      {
        var index := Largest(pending);
        ghost var done := selected - pending;
        assert selected - (pending - {index}) == done + {index};
        PopStep(original, done, index);
        if index < |batchTargets| {
          batchTargets := batchTargets[..index] + batchTargets[index + 1..];
          removedCount := removedCount + 1;
        }
        pending := pending - {index};
      }
      removed := Some(removedCount);
      assert selected - pending == selected;
      WithoutProperties(original, selected);
      if NoDuplicates(original) && forall k :: 0 <= k < |original| ==> HasScheme(original[k]) {
        WithoutValid(original, selected);
      }
    }

    /** `clear_batch_list`. */
    method ClearBatchList()
      modifies this
      ensures batchTargets == [] && Valid()
    {
      batchTargets := [];
    }
  }

  /** The largest index of a non-empty selection: the next one the descending loop visits. */
  method Largest(s: set<nat>) returns (m: nat)
    requires s != {}
    ensures m in s && forall j :: j in s ==> j <= m
  {
    m :| m in s;
    var rest := s - {m};
    assert s - rest == {m};
    while rest != {}
      invariant rest <= s && m in s
      invariant forall j :: j in s - rest ==> j <= m
      decreases |rest|
    {
      var x :| x in rest;
      assert s - (rest - {x}) == (s - rest) + {x};
      if x > m {
        m := x;
      }
      rest := rest - {x};
    }
    assert s - rest == s;
  }
}
