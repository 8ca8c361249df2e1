/** Display helpers of the member card: the years badge and the slug of the
    member's artist page. */
module MemberCard {
  import opened Strings

  /** The separator of the years badge, U+2013 EN DASH. */
  const EN_DASH: char := '\U{2013}'

  /** JavaScript truthiness of a nullable year: set and not zero. */
  predicate Truthy(year: Option<int>)
  {
    year.Some? && year.value != 0
  }

  /** The years badge: "start–end", "start–present", or nothing without a start year. */
  function YearsLabel(startYear: Option<int>, endYear: Option<int>): (r: Option<string>)
    ensures r.None? <==> !Truthy(startYear)
    ensures Truthy(startYear) && Truthy(endYear) ==>
      r == Some(IntToString(startYear.value) + [EN_DASH] + IntToString(endYear.value))
    ensures Truthy(startYear) && !Truthy(endYear) ==>
      r == Some(IntToString(startYear.value) + [EN_DASH] + "present")
  {
    if Truthy(startYear) && Truthy(endYear) then
      Some(IntToString(startYear.value) + [EN_DASH] + IntToString(endYear.value))
    else if Truthy(startYear) then
      Some(IntToString(startYear.value) + [EN_DASH] + "present")
    else None
  }

  predicate IsIntText(s: string)
  {
    forall c :: c in s ==> IsDigit(c) || c == '-'
  }

  /** Reads a years badge back: the start year and, unless the member is
      still present, the end year. */
  function ParseYearsLabel(badge: string): Option<(int, Option<int>)>
  {
    if EN_DASH !in badge then None
    else
      var k := IndexOf(badge, EN_DASH);
      var head, tail := badge[..k], badge[k + 1..];
      if !IsIntText(head) then None
      else if tail == "present" then Some((ParseInt(head), None))
      else if IsIntText(tail) then Some((ParseInt(head), Some(ParseInt(tail))))
      else None
  }

  /** The badge is unambiguous: it determines the start year and whether
      and when the membership ended. */
  lemma YearsLabelRoundTrip(startYear: Option<int>, endYear: Option<int>)
    requires Truthy(startYear)
    ensures ParseYearsLabel(YearsLabel(startYear, endYear).value)
      == Some((startYear.value, if Truthy(endYear) then Some(endYear.value) else None))
  {
    var head := IntToString(startYear.value);
    var tail := if Truthy(endYear) then IntToString(endYear.value) else "present";
    var badge := head + [EN_DASH] + tail;
    assert badge == YearsLabel(startYear, endYear).value;
    assert badge[|head|] == EN_DASH;
    var k := IndexOf(badge, EN_DASH);
    assert k == |head| by {
      assert badge[..|head|] == head;
      assert EN_DASH !in head;
    }
    assert badge[..k] == head;
    assert badge[k + 1..] == tail;
    IntRoundTrip(startYear.value);
    if Truthy(endYear) {
      IntRoundTrip(endYear.value);
      assert tail != "present" by {
        assert tail[0] in tail;
        assert "present"[0] == 'p';
      }
    }
  }

  /** Characters a slug may contain: `[a-z0-9-]`. */
  predicate IsSlugChar(c: char)
  {
    ('a' <= c <= 'z') || IsDigit(c) || c == '-'
  }

  /** What the first character of `s` becomes under `replace(/\s+/g, "-")`:
      itself when it is not white space, nothing when the next character is
      white space too, and the run's one dash when it ends a run. */
  function Lead(s: string): string
    requires s != []
  {
    if !IsSpace(s[0]) then [s[0]]
    else if |s| > 1 && IsSpace(s[1]) then []
    else "-"
  }

  /** `replace(/\s+/g, "-")`: every maximal run of white space becomes one
      dash, so the result is never longer and is empty only for empty input. */
  function CollapseSpaces(s: string): (r: string)
    ensures |r| <= |s|
    ensures r == [] <==> s == []
  {
    if s == [] then [] else Lead(s) + CollapseSpaces(s[1..])
  }

  /** Every character other than white space and the dash survives the
      collapse, as often as it occurs. */
  lemma {:induction false} CollapseSpacesKeepsText(s: string)
    ensures forall c :: !IsSpace(c) && c != '-' ==> multiset(CollapseSpaces(s))[c] == multiset(s)[c]
  {
    if s != [] {
      CollapseSpacesKeepsText(s[1..]);
      assert s == [s[0]] + s[1..];
      assert CollapseSpaces(s) == Lead(s) + CollapseSpaces(s[1..]);
      assert forall c :: !IsSpace(c) && c != '-' ==> multiset(Lead(s))[c] == multiset([s[0]])[c];
    }
  }

  /** No white space survives the collapse, and text without white space is left as it is. */
  lemma {:induction false} CollapseSpacesRemovesSpace(s: string)
    ensures forall i :: 0 <= i < |CollapseSpaces(s)| ==> !IsSpace(CollapseSpaces(s)[i])
    ensures (forall i :: 0 <= i < |s| ==> !IsSpace(s[i])) ==> CollapseSpaces(s) == s
  {
    if s != [] {
      CollapseSpacesRemovesSpace(s[1..]);
      if forall i :: 0 <= i < |s| ==> !IsSpace(s[i]) {
        assert forall i :: 0 <= i < |s[1..]| ==> !IsSpace(s[1..][i]) by {
          forall i | 0 <= i < |s[1..]| ensures !IsSpace(s[1..][i]) {
            assert s[1..][i] == s[i + 1];
          }
        }
        assert CollapseSpaces(s) == [s[0]] + s[1..];
      }
    }
  }

  /** `replace(/[^a-z0-9-]/g, "")`: every slug character is kept, as often as
      it occurs, and nothing else; `KeepSlugCharsAppend` adds that order is kept. */
  function KeepSlugChars(s: string): (r: string)
    ensures forall c :: c in r ==> IsSlugChar(c)
    ensures forall c :: IsSlugChar(c) ==> multiset(r)[c] == multiset(s)[c]
    ensures (forall c :: c in s ==> IsSlugChar(c)) ==> r == s
  {
    if s == [] then []
    else
      assert s == [s[0]] + s[1..];
      (if IsSlugChar(s[0]) then [s[0]] else []) + KeepSlugChars(s[1..])
  }

  /** The filter works piece by piece, so the kept characters stay in order. */
  lemma {:induction false} KeepSlugCharsAppend(a: string, b: string)
    ensures KeepSlugChars(a + b) == KeepSlugChars(a) + KeepSlugChars(b)
    decreases |a|
  {
    if a == [] {
      assert a + b == b;
    } else {
      assert (a + b)[0] == a[0] && (a + b)[1..] == a[1..] + b;
      KeepSlugCharsAppend(a[1..], b);
    }
  }

  /** The slug in the link to a member's artist page: only slug characters,
      and every lower-case letter and digit of the lower-cased name survives,
      as often as it occurs. */
  function Slug(name: string): (r: string)
    ensures forall c :: c in r ==> IsSlugChar(c)
    ensures forall c :: ('a' <= c <= 'z' || IsDigit(c)) ==> multiset(r)[c] == multiset(Lower(name))[c]
  {
    CollapseSpacesKeepsText(Lower(name));
    KeepSlugChars(CollapseSpaces(Lower(name)))
  }

  /** A slug is its own slug. */
  lemma SlugIdempotent(name: string)
    ensures Slug(Slug(name)) == Slug(name)
  {
    var t := Slug(name);
    forall i | 0 <= i < |t| ensures LowerChar(t[i]) == t[i] && !IsSpace(t[i]) {
      assert t[i] in t;
    }
    assert Lower(t) == t;
    CollapseSpacesRemovesSpace(t);
  }

  /** A run of white space in front of a string that does not begin with
      white space turns into one dash. */
  lemma {:induction false} LeadingRunBecomesOneDash(run: string, y: string)
    requires run != [] && forall i :: 0 <= i < |run| ==> IsSpace(run[i])
    requires y == [] || !IsSpace(y[0])
    ensures CollapseSpaces(run + y) == "-" + CollapseSpaces(y)
    decreases |run|
  {
    var s := run + y;
    assert s[0] == run[0];
    assert s[1..] == run[1..] + y;
    if |run| > 1 {
      assert s[1] == run[1];
      LeadingRunBecomesOneDash(run[1..], y);
    } else {
      assert s[1..] == y;
    }
  }

  /** Unfolds the collapse once at the front of `x + run + y`, for an `x` that
      ends in a non-space character. */
  lemma CollapseFront(x: string, run: string, y: string)
    requires x != [] && !IsSpace(x[|x| - 1])
    ensures CollapseSpaces(x + run + y) == Lead(x) + CollapseSpaces(x[1..] + run + y)
  {
    var s := x + run + y;
    assert s[1..] == x[1..] + run + y;
    if |x| > 1 {
      assert s[1] == x[1];
    }
  }

  /** A run of white space between two non-space characters turns into exactly
      one dash, whatever its length and wherever it stands. */
  lemma {:induction false} SpaceRunBecomesOneDash(x: string, run: string, y: string)
    requires x == [] || !IsSpace(x[|x| - 1])
    requires run != [] && forall i :: 0 <= i < |run| ==> IsSpace(run[i])
    requires y == [] || !IsSpace(y[0])
    ensures CollapseSpaces(x + run + y) == CollapseSpaces(x) + "-" + CollapseSpaces(y)
    decreases |x|
  {
    if x == [] {
      assert x + run + y == run + y;
      LeadingRunBecomesOneDash(run, y);
    } else {
      CollapseFront(x, run, y);
      SpaceRunBecomesOneDash(x[1..], run, y);
      assert CollapseSpaces(x) == Lead(x) + CollapseSpaces(x[1..]);
      Regroup(CollapseSpaces(x + run + y), CollapseSpaces(x), Lead(x), CollapseSpaces(x[1..]),
        CollapseSpaces(x[1..] + run + y), CollapseSpaces(y));
    }
  }

  /** In the slug, a run of white space between two non-space characters
      becomes exactly one dash, which joins the slugs of the two sides. */
  lemma SlugRunBecomesOneDash(x: string, run: string, y: string)
    requires x == [] || !IsSpace(x[|x| - 1])
    requires run != [] && forall i :: 0 <= i < |run| ==> IsSpace(run[i])
    requires y == [] || !IsSpace(y[0])
    ensures Slug(x + run + y) == Slug(x) + "-" + Slug(y)
  {
    var lx, lr, ly := Lower(x), Lower(run), Lower(y);
    assert Lower(x + run + y) == lx + lr + ly by {
      LowerAppend(x + run, y);
      LowerAppend(x, run);
    }
    assert lx == [] || !IsSpace(lx[|lx| - 1]);
    assert forall i :: 0 <= i < |lr| ==> IsSpace(lr[i]);
    assert ly == [] || !IsSpace(ly[0]);
    KeepRunOneDash(lx, lr, ly);
  }

  /** The same, one step after lower-casing. */
  lemma KeepRunOneDash(x: string, run: string, y: string)
    requires x == [] || !IsSpace(x[|x| - 1])
    requires run != [] && forall i :: 0 <= i < |run| ==> IsSpace(run[i])
    requires y == [] || !IsSpace(y[0])
    ensures KeepSlugChars(CollapseSpaces(x + run + y))
      == KeepSlugChars(CollapseSpaces(x)) + "-" + KeepSlugChars(CollapseSpaces(y))
  {
    SpaceRunBecomesOneDash(x, run, y);
    var cx, cy := CollapseSpaces(x), CollapseSpaces(y);
    assert CollapseSpaces(x + run + y) == cx + "-" + cy;
    KeepSlugCharsAppend(cx + "-", cy);
    KeepSlugCharsAppend(cx, "-");
    KeepDash();
  }

  lemma KeepDash()
    ensures KeepSlugChars("-") == "-"
  {
    assert "-"[1..] == [];
  }

  lemma Regroup(whole: string, left: string, l: string, a: string, rest: string, b: string)
    requires whole == l + rest && rest == a + "-" + b && left == l + a
    ensures whole == left + "-" + b
  {
  }
}
