/**
 * Message rendering: `message_template.replace("{name}", name)`. Python's
 * `str.replace` scans left to right and replaces every non-overlapping
 * occurrence of the placeholder, resuming the scan right after each one.
 */
module Template {

  const Placeholder: string := "{name}"

  /** The placeholder starts at position `i` of `t`. */
  predicate OccursAt(t: string, i: nat)
  {
    i + |Placeholder| <= |t| && t[i..i + |Placeholder|] == Placeholder
  }

  /** `"{name}" in t`. */
  ghost predicate HasPlaceholder(t: string)
  {
    exists i: nat :: OccursAt(t, i)
  }

  /** `t.replace("{name}", name)`. */
  function Render(t: string, name: string): string
    decreases |t|
  {
    if |t| < |Placeholder| then t
    else if t[..|Placeholder|] == Placeholder then name + Render(t[|Placeholder|..], name)
    else [t[0]] + Render(t[1..], name)
  }

  /** `t.count("{name}")`: the non-overlapping occurrences, counted left to right. */
  function Count(t: string): nat
    decreases |t|
  {
    if |t| < |Placeholder| then 0
    else if t[..|Placeholder|] == Placeholder then 1 + Count(t[|Placeholder|..])
    else Count(t[1..])
  }

  /** An occurrence in `t[1..]` is an occurrence in `t`, one position later. */
  lemma OccursAtTail(t: string, i: nat)
    requires |t| > 0
    ensures OccursAt(t[1..], i) <==> OccursAt(t, i + 1)
  {
    if i + 1 + |Placeholder| <= |t| {
      assert t[1..][i..i + |Placeholder|] == t[i + 1..i + 1 + |Placeholder|];
    }
  }

  /** A template without the placeholder is sent unchanged. */
  lemma {:induction false} RenderWithoutPlaceholder(t: string, name: string)
    requires !HasPlaceholder(t)
    ensures Render(t, name) == t
    decreases |t|
  {
    if |t| >= |Placeholder| {
      assert !OccursAt(t, 0);
      assert !HasPlaceholder(t[1..]) by {
        forall i: nat | OccursAt(t[1..], i)
          ensures false
        {
          OccursAtTail(t, i);
        }
      }
      RenderWithoutPlaceholder(t[1..], name);
    }
  }

  /** Rendering with the name "{name}" gives the template back. */
  lemma {:induction false} RenderPlaceholderIsIdentity(t: string)
    ensures Render(t, Placeholder) == t
    decreases |t|
  {
    if |t| >= |Placeholder| {
      if t[..|Placeholder|] == Placeholder {
        RenderPlaceholderIsIdentity(t[|Placeholder|..]);
        assert t == t[..|Placeholder|] + t[|Placeholder|..];
      } else {
        RenderPlaceholderIsIdentity(t[1..]);
        assert t == [t[0]] + t[1..];
      }
    }
  }

  /** Each replaced occurrence changes the length by `|name| - 6`. */
  lemma {:induction false} RenderLength(t: string, name: string)
    ensures |Render(t, name)| == |t| + Count(t) * (|name| - |Placeholder|)
    decreases |t|
  {
    if |t| >= |Placeholder| {
      if t[..|Placeholder|] == Placeholder {
        var rest := t[|Placeholder|..];
        RenderLength(rest, name);
        calc {
          |Render(t, name)|;
          |name| + |rest| + Count(rest) * (|name| - |Placeholder|);
          { assert |rest| == |t| - |Placeholder|; }
          |t| + (1 + Count(rest)) * (|name| - |Placeholder|);
        }
      } else {
        RenderLength(t[1..], name);
      }
    }
  }

  /** The count is zero exactly when the placeholder does not occur at all. */
  lemma {:induction false} CountZeroIffAbsent(t: string)
    ensures Count(t) == 0 <==> !HasPlaceholder(t)
    decreases |t|
  {
    if |t| < |Placeholder| {
      forall i: nat ensures !OccursAt(t, i) { }
    } else if t[..|Placeholder|] == Placeholder {
      assert OccursAt(t, 0);
    } else {
      CountZeroIffAbsent(t[1..]);
      assert !OccursAt(t, 0);
      if HasPlaceholder(t) {
        var i: nat :| OccursAt(t, i);
        OccursAtTail(t, i - 1);
        assert HasPlaceholder(t[1..]);
      }
      if HasPlaceholder(t[1..]) {
        var i: nat :| OccursAt(t[1..], i);
        OccursAtTail(t, i);
      }
    }
  }

  /** No occurrence before `n` in `t` means none before `n - 1` in `t[1..]`. */
  lemma NoEarlierInTail(t: string, n: nat)
    requires 0 < n && |t| > 0
    requires forall i: nat :: i < n ==> !OccursAt(t, i)
    ensures forall i: nat :: i < n - 1 ==> !OccursAt(t[1..], i)
  {
    forall i: nat | i < n - 1
      ensures !OccursAt(t[1..], i)
    {
      OccursAtTail(t, i);
    }
  }

  /** Prepending one kept character to the rendering of the tail. */
  lemma KeepFirst(t: string, n: nat, name: string, after: string)
    requires 0 < n <= |t|
    ensures [t[0]] + (t[1..][..n - 1] + name + after) == t[..n] + name + after
  {
    assert [t[0]] + t[1..][..n - 1] == t[..n];
  }

  /**
   * The scan is left to right: when the first occurrence starts at `n`, the
   * text before it is kept, it is replaced by `name`, and rendering resumes on
   * the text after it.
   */
  lemma {:induction false} RenderFirstOccurrence(t: string, n: nat, name: string)
    requires OccursAt(t, n)
    requires forall i: nat :: i < n ==> !OccursAt(t, i)
    ensures Render(t, name) == t[..n] + name + Render(t[n + |Placeholder|..], name)
    decreases n
  {
    if n == 0 {
      assert t[..|Placeholder|] == Placeholder;
    } else {
      assert !OccursAt(t, 0);
      var tail := t[1..];
      OccursAtTail(t, n - 1);
      NoEarlierInTail(t, n);
      RenderFirstOccurrence(tail, n - 1, name);
      assert tail[n - 1 + |Placeholder|..] == t[n + |Placeholder|..];
      KeepFirst(t, n, name, Render(t[n + |Placeholder|..], name));
    }
  }
}
