/**
 * The template lists: the names kept from the output of `nuclei -tl`, the
 * case-insensitive search over the official and the custom lists, and the
 * templates picked by the selections in the two list boxes.
 */
module Templates {
  import opened Wrappers
  import opened Strings
  import opened Lists

  const YamlSuffix: string := ".yaml"

  /** A line of the `nuclei -tl` output that names a template: not blank, not a `[...]` log line, a `.yaml` file. */
  predicate IsTemplateLine(line: string) {
    Strip(line) != "" && !StartsWith(line, "[") && EndsWith(line, YamlSuffix)
  }

  /** What one line contributes: its trimmed form when it names a template, else nothing. */
  function Kept(line: string): seq<string> {
    if IsTemplateLine(line) then [Strip(line)] else []
  }

  /** The template lines of `lines`, in order, trimmed. */
  function TemplateLines(lines: seq<string>): seq<string>
    decreases |lines|
  {
    if lines == [] then [] else Kept(lines[0]) + TemplateLines(lines[1..])
  }

  /**
   * `new_templates` in `load_template_list`, for the standard output of
   * `nuclei -tl`: one non-empty, trimmed `.yaml` name for every output line
   * that passes the filter.
   */
  function TemplateList(stdout: string): (r: seq<string>)
    ensures forall t :: t in r ==> t != "" && EndsWith(t, YamlSuffix) && Strip(t) == t
    ensures |r| == |Positions(Split(Strip(stdout), '\n'), IsTemplateLine)|
  {
    var lines := Split(Strip(stdout), '\n');
    TemplateLinesSpec(lines);
    TemplateLinesCount(lines);
    TemplateLines(lines)
  }

  /** The filter works line by line: the names of two stretches of output, in order. */
  lemma {:induction false} TemplateLinesAppend(a: seq<string>, b: seq<string>)
    ensures TemplateLines(a + b) == TemplateLines(a) + TemplateLines(b)
    decreases |a|
  {
    if a == [] {
      assert a + b == b;
    } else {
      var ab := a + b;
      assert ab[0] == a[0] && ab[1..] == a[1..] + b;
      TemplateLinesAppend(a[1..], b);
    }
  }

  /** Every line that passes the filter contributes exactly one name, repeats included. */
  lemma {:induction false} TemplateLinesCount(lines: seq<string>)
    ensures |TemplateLines(lines)| == |Positions(lines, IsTemplateLine)|
    decreases |lines|
  {
    if lines != [] {
      var init, last := lines[..|lines| - 1], lines[|lines| - 1];
      assert lines == init + [last];
      TemplateLinesAppend(init, [last]);
      TemplateLinesCount(init);
      assert TemplateLines([last]) == Kept(last) by {
        assert [last][1..] == [];
      }
      PositionsSnoc(init, last, IsTemplateLine);
    }
  }

  /** A template line, trimmed, is a non-empty trimmed name that still ends in `.yaml`. */
  lemma TemplateLineStripped(line: string)
    requires IsTemplateLine(line)
    ensures var t := Strip(line);
            t != "" && EndsWith(t, YamlSuffix) && Strip(t) == t
  {
    assert YamlSuffix[0] == '.' && YamlSuffix[4] == 'l';
    StripEndsWith(line, YamlSuffix);
    StripIdempotent(line);
  }

  /**
   * Every name kept is a non-empty, trimmed `.yaml` name, and a name is kept
   * exactly when some template line trims to it.
   */
  lemma {:induction false} TemplateLinesSpec(lines: seq<string>)
    ensures forall t :: t in TemplateLines(lines) ==> t != "" && EndsWith(t, YamlSuffix) && Strip(t) == t
    ensures forall t :: t in TemplateLines(lines) <==>
              exists i :: 0 <= i < |lines| && IsTemplateLine(lines[i]) && Strip(lines[i]) == t
    decreases |lines|
  {
    if lines != [] {
      TemplateLinesSpec(lines[1..]);
      var head := Kept(lines[0]);
      var rest := TemplateLines(lines[1..]);
      assert TemplateLines(lines) == head + rest;
      if IsTemplateLine(lines[0]) {
        TemplateLineStripped(lines[0]);
      }
      forall t ensures t in TemplateLines(lines) <==>
                 exists i :: 0 <= i < |lines| && IsTemplateLine(lines[i]) && Strip(lines[i]) == t
      {
        if t in rest {
          var i :| 0 <= i < |lines[1..]| && IsTemplateLine(lines[1..][i]) && Strip(lines[1..][i]) == t;
          assert lines[i + 1] == lines[1..][i];
        }
        if exists i :: 0 <= i < |lines| && IsTemplateLine(lines[i]) && Strip(lines[i]) == t {
          var i :| 0 <= i < |lines| && IsTemplateLine(lines[i]) && Strip(lines[i]) == t;
          if i > 0 {
            assert lines[1..][i - 1] == lines[i];
          }
        }
      }
    }
  }

  /** The entries whose lower-case form contains `needle` (already lower-cased). */
  function Matching(templates: seq<string>, needle: string): seq<string>
    decreases |templates|
  {
    if templates == [] then []
    else (if Contains(Lower(templates[0]), needle) then [templates[0]] else [])
         + Matching(templates[1..], needle)
  }

  /** The entries kept by `Matching`, in their order, are those that contain the needle. */
  lemma {:induction false} MatchingSpec(templates: seq<string>, needle: string)
    ensures Subsequence(Matching(templates, needle), templates)
    ensures forall t :: t in Matching(templates, needle) <==> t in templates && Contains(Lower(t), needle)
    decreases |templates|
  {
    if templates != [] {
      MatchingSpec(templates[1..], needle);
      var rest := Matching(templates[1..], needle);
      var m := Matching(templates, needle);
      if Contains(Lower(templates[0]), needle) {
        assert m == [templates[0]] + rest;
        assert m[1..] == rest;
      } else {
        assert m == rest;
      }
      assert forall t :: t in templates <==> t == templates[0] || t in templates[1..];
    }
  }

  /**
   * `search_templates` and `search_custom_templates`: the whole list for an
   * empty search term; otherwise, in their order and with repeats, exactly
   * the entries that contain the term when both are lower-cased.
   */
  function Search(templates: seq<string>, term: string): (r: seq<string>)
    ensures Subsequence(r, templates)
    ensures term == "" ==> r == templates
    ensures term != "" ==> forall k :: 0 <= k < |r| ==> Contains(Lower(r[k]), Lower(term))
    ensures term != "" ==> forall t :: t in r <==> t in templates && Contains(Lower(t), Lower(term))
    ensures term != "" ==>
              |r| == |Hits(templates, Lower(term))|
  {
    var needle := Lower(term);
    if needle == "" then
      SubsequenceRefl(templates);
      templates
    else
      MatchingSpec(templates, needle);
      MatchingCount(templates, needle);
      Matching(templates, needle)
  }

  /** The positions of `templates` whose entry contains `needle` once lower-cased. */
  function Hits(templates: seq<string>, needle: string): set<nat> {
    Positions(templates, t => Contains(Lower(t), needle))
  }

  /** Every entry that contains the needle is kept once, repeats included. */
  lemma {:induction false} MatchingCount(templates: seq<string>, needle: string)
    ensures |Matching(templates, needle)| == |Hits(templates, needle)|
    decreases |templates|
  {
    if templates != [] {
      var init, last := templates[..|templates| - 1], templates[|templates| - 1];
      assert templates == init + [last];
      MatchingAppend(init, [last], needle);
      MatchingCount(init, needle);
      assert Matching([last], needle) == if Contains(Lower(last), needle) then [last] else [] by {
        assert [last][1..] == [];
      }
      PositionsSnoc(init, last, t => Contains(Lower(t), needle));
    }
  }

  /** Filtering an already filtered list again with the same term changes nothing. */
  lemma {:induction false} MatchingIdempotent(templates: seq<string>, needle: string)
    ensures Matching(Matching(templates, needle), needle) == Matching(templates, needle)
    decreases |templates|
  {
    if templates != [] {
      MatchingIdempotent(templates[1..], needle);
      var rest := Matching(templates[1..], needle);
      if Contains(Lower(templates[0]), needle) {
        var m := [templates[0]] + rest;
        assert Matching(templates, needle) == m;
        assert m[1..] == rest;
        assert Matching(m, needle) == [templates[0]] + Matching(rest, needle);
      } else {
        assert Matching(templates, needle) == rest;
      }
    }
  }

  /** Searching again with the same term returns the same list. */
  lemma SearchIdempotent(templates: seq<string>, term: string)
    ensures Search(Search(templates, term), term) == Search(templates, term)
  {
    if Lower(term) != "" {
      MatchingIdempotent(templates, Lower(term));
    }
  }

  /** The search works list piece by list piece. */
  lemma SearchAppend(a: seq<string>, b: seq<string>, term: string)
    ensures Search(a + b, term) == Search(a, term) + Search(b, term)
  {
    if Lower(term) != "" {
      MatchingAppend(a, b, Lower(term));
    }
  }

  lemma {:induction false} MatchingAppend(a: seq<string>, b: seq<string>, needle: string)
    ensures Matching(a + b, needle) == Matching(a, needle) + Matching(b, needle)
    decreases |a|
  {
    if a == [] {
      assert a + b == b;
    } else {
      MatchingAppend(a[1..], b, needle);
      assert (a + b)[1..] == a[1..] + b;
    }
  }

  /** The search ignores case: a term and its lower-case form select the same entries. */
  lemma SearchIgnoresCase(templates: seq<string>, term: string)
    ensures Search(templates, Lower(term)) == Search(templates, term)
  {
    LowerIdempotent(term);
  }

  /**
   * `[xs[i] for i in indices]`, or `None` when an index is past the end
   * (Python raises `IndexError`).
   */
  function Pick(xs: seq<string>, indices: seq<nat>): (r: Option<seq<string>>)
    ensures r.Some? <==> forall k :: 0 <= k < |indices| ==> indices[k] < |xs|
    ensures r.Some? ==> |r.value| == |indices| && forall k :: 0 <= k < |indices| ==> r.value[k] == xs[indices[k]]
    decreases |indices|
  {
    if indices == [] then Some([])
    else if indices[0] >= |xs| then None
    else match Pick(xs, indices[1..])
      case None => None
      case Some(rest) => Some([xs[indices[0]]] + rest)
  }

  /**
   * `get_selected_templates`: the selected rows of the filtered official
   * list, then the selected rows of the filtered custom list.
   */
  function SelectedTemplates(filtered: seq<string>, officialSelection: seq<nat>,
                             filteredCustom: seq<string>, customSelection: seq<nat>): (r: Option<seq<string>>)
    ensures r.Some? <==>
              && (forall k :: 0 <= k < |officialSelection| ==> officialSelection[k] < |filtered|)
              && (forall k :: 0 <= k < |customSelection| ==> customSelection[k] < |filteredCustom|)
    ensures r.Some? ==>
              && |r.value| == |officialSelection| + |customSelection|
              && (forall k :: 0 <= k < |officialSelection| ==> r.value[k] == filtered[officialSelection[k]])
              && (forall k :: 0 <= k < |customSelection| ==>
                    r.value[|officialSelection| + k] == filteredCustom[customSelection[k]])
  {
    match (Pick(filtered, officialSelection), Pick(filteredCustom, customSelection))
    case (Some(a), Some(b)) => Some(a + b)
    case _ => None
  }
}
