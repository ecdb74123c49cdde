/** The Python string built-ins the OCR endpoint relies on: `str.strip()`,
    `str.lower()`, `str.endswith()`, `str.join()` and `filter(None, ...)` over
    a list of strings. */
module Strings {

  /** Python's `str.isspace()` for one character: exactly the characters that
      `str.strip()` with no argument removes from both ends. */
  predicate IsSpace(c: char)
  {
    || ('\t' <= c <= '\r')                  // tab, line feed, vertical tab, form feed, carriage return
    || ('\U{1c}' <= c <= '\U{1f}')          // file, group, record and unit separators
    || c == ' '
    || c == '\U{85}'                        // next line
    || c == '\U{a0}'                        // no-break space
    || c == '\U{1680}'
    || ('\U{2000}' <= c <= '\U{200a}')
    || c == '\U{2028}' || c == '\U{2029}'
    || c == '\U{202f}' || c == '\U{205f}' || c == '\U{3000}'
  }

  /** Every character of `s` is whitespace (vacuously true of ""). */
  predicate AllSpace(s: string)
  {
    forall i :: 0 <= i < |s| ==> IsSpace(s[i])
  }

  /** Every character of `s` from index `lo` up to, not including, `hi` is
      whitespace. */
  predicate SpaceBetween(s: string, lo: int, hi: int)
    requires 0 <= lo && hi <= |s|
  {
    forall i :: lo <= i < hi ==> IsSpace(s[i])
  }

  /** `s` has no whitespace at either end. */
  predicate Trimmed(s: string)
  {
    s == [] || (!IsSpace(s[0]) && !IsSpace(s[|s| - 1]))
  }

  /** The index of the first non-whitespace character of `s` at or after
      `i`, or `|s|` if there is none. */
  function LeftEnd(s: string, i: nat): (k: nat)
    requires i <= |s|
    ensures i <= k <= |s|
    ensures SpaceBetween(s, i, k)
    ensures k < |s| ==> !IsSpace(s[k])
    decreases |s| - i
  {
    if i < |s| && IsSpace(s[i]) then LeftEnd(s, i + 1) else i
  }

  /** Scanning down from `j`, but not below `lo`: the end of the last
      non-whitespace character, or `lo` if there is none. */
  function RightEnd(s: string, lo: nat, j: nat): (k: nat)
    requires lo <= j <= |s|
    ensures lo <= k <= j
    ensures SpaceBetween(s, k, j)
    ensures k > lo ==> !IsSpace(s[k - 1])
    decreases j - lo
  {
    if j > lo && IsSpace(s[j - 1]) then RightEnd(s, lo, j - 1) else j
  }

  /** Python's `str.strip()` with no argument: skip whitespace from the left,
      then from the right down to where the left scan stopped, and keep the
      slice in between. */
  function Strip(s: string): (r: string)
    ensures |r| <= |s|
    ensures Trimmed(r)
    ensures r == [] <==> AllSpace(s)
  {
    var lo := LeftEnd(s, 0);
    var hi := RightEnd(s, lo, |s|);
    assert lo < |s| ==> !IsSpace(s[lo]);
    s[lo..hi]
  }

  /** An independent description of `strip`: the result is the one slice of
      `s` that has only whitespace around it and no whitespace at its own ends. */
  lemma StripIsSlice(s: string, lo: nat, hi: nat)
    requires lo <= hi <= |s|
    requires SpaceBetween(s, 0, lo) && SpaceBetween(s, hi, |s|)
    requires Trimmed(s[lo..hi])
    ensures Strip(s) == s[lo..hi]
  {
    if lo == hi {
      assert AllSpace(s);
    } else {
      assert s[lo..hi][0] == s[lo] && s[lo..hi][hi - lo - 1] == s[hi - 1];
      var k := LeftEnd(s, 0);
      assert k == lo;
      assert RightEnd(s, k, |s|) == hi;
    }
  }

  /** Stripping twice is stripping once. */
  lemma StripIdempotent(s: string)
    ensures Strip(Strip(s)) == Strip(s)
  {
    var r := Strip(s);
    assert r[0..|r|] == r;
    StripIsSlice(r, 0, |r|);
  }

  /** The whitespace set is exactly what `strip` removes: a one-character
      string strips to nothing exactly when its character is whitespace. */
  lemma StripOneChar(c: char)
    ensures Strip([c]) == [] <==> IsSpace(c)
  {
    assert [c][0] == c;
  }

  /** Python's `str.lower()` for one character, on ASCII letters. */
  function LowerChar(c: char): char
  {
    if 'A' <= c <= 'Z' then (c as int - 'A' as int + 'a' as int) as char else c
  }

  /** Python's `str.lower()`: the same string with every upper-case ASCII
      letter replaced by its lower-case form. */
  function Lower(s: string): (r: string)
    ensures |r| == |s|
    ensures forall i :: 0 <= i < |s| ==> r[i] == LowerChar(s[i])
  {
    if s == [] then [] else [LowerChar(s[0])] + Lower(s[1..])
  }

  /** Python's `str.endswith(suffix)`. */
  predicate EndsWith(s: string, suffix: string)
  {
    |suffix| <= |s| && s[|s| - |suffix|..] == suffix
  }

  /** `s.endswith(suffix)` holds exactly when `s` is some string followed
      by `suffix`. */
  lemma EndsWithIff(s: string, suffix: string)
    ensures EndsWith(s, suffix) <==> exists p :: s == p + suffix
  {
    if EndsWith(s, suffix) {
      assert s == s[..|s| - |suffix|] + suffix;
    }
    if exists p :: s == p + suffix {
      var p :| s == p + suffix;
      assert s[|s| - |suffix|..] == suffix;
    }
  }

  /** Python's `sep.join(parts)`. */
  function Join(sep: string, parts: seq<string>): string
  {
    if |parts| == 0 then ""
    else if |parts| == 1 then parts[0]
    else parts[0] + sep + Join(sep, parts[1..])
  }

  /** Joining two non-empty lists puts exactly one separator between them:
      `join` preserves order and adds nothing else. */
  lemma {:induction false} JoinAppend(sep: string, a: seq<string>, b: seq<string>)
    requires a != [] && b != []
    ensures Join(sep, a + b) == Join(sep, a) + sep + Join(sep, b)
  {
    if |a| == 1 {
      assert (a + b)[0] == a[0] && (a + b)[1..] == b;
    } else {
      assert (a + b)[0] == a[0] && (a + b)[1..] == a[1..] + b;
      JoinAppend(sep, a[1..], b);
    }
  }

  /** The total length of the parts. */
  function TotalLength(parts: seq<string>): nat
  {
    if parts == [] then 0 else |parts[0]| + TotalLength(parts[1..])
  }

  /** The joined string is as long as its parts plus one separator between
      each two neighbours. */
  lemma {:induction false} JoinLength(sep: string, parts: seq<string>)
    requires parts != []
    ensures |Join(sep, parts)| == TotalLength(parts) + (|parts| - 1) * |sep|
  {
    if |parts| > 1 {
      JoinLength(sep, parts[1..]);
    }
  }

  /** When no part is empty, the joined string is empty exactly when there
      are no parts. */
  lemma {:induction false} JoinEmptyIff(sep: string, parts: seq<string>)
    requires forall i :: 0 <= i < |parts| ==> parts[i] != []
    ensures Join(sep, parts) == [] <==> parts == []
  {
    if |parts| > 1 {
      assert parts[0] != [];
    }
  }

  /** Python's `list(filter(None, parts))` over strings: the non-empty
      parts, in their original order. */
  function KeepNonEmpty(parts: seq<string>): (r: seq<string>)
    ensures |r| <= |parts|
    ensures forall i :: 0 <= i < |r| ==> r[i] != []
    ensures forall x :: x in r <==> x in parts && x != []
  {
    if parts == [] then []
    else (if parts[0] == [] then [] else [parts[0]]) + KeepNonEmpty(parts[1..])
  }

  /** Filtering distributes over concatenation, so the kept parts keep
      their relative order. */
  lemma {:induction false} KeepNonEmptyAppend(a: seq<string>, b: seq<string>)
    ensures KeepNonEmpty(a + b) == KeepNonEmpty(a) + KeepNonEmpty(b)
  {
    if a != [] {
      assert (a + b)[0] == a[0] && (a + b)[1..] == a[1..] + b;
      KeepNonEmptyAppend(a[1..], b);
    } else {
      assert a + b == b;
    }
  }

  /** Nothing survives the filter exactly when every part is empty. */
  lemma KeepNonEmptyNone(parts: seq<string>)
    ensures KeepNonEmpty(parts) == [] <==> forall i :: 0 <= i < |parts| ==> parts[i] == []
  {
    if KeepNonEmpty(parts) == [] {
      forall i | 0 <= i < |parts| ensures parts[i] == [] {
        assert parts[i] in parts;
      }
    } else {
      assert KeepNonEmpty(parts)[0] in parts;
    }
  }
}
