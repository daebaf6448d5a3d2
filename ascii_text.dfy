/** The ASCII subset of Go's `strings` package that go-import discovery
    uses: case folding and splitting on white space. */
module AsciiText {

  /** ASCII lower case. */
  function Lower(c: char): char
  {
    if 'A' <= c <= 'Z' then (c as int - 'A' as int + 'a' as int) as char else c
  }

  /** `strings.ToLower` on ASCII. */
  function ToLower(s: string): (r: string)
    ensures |r| == |s| && forall i :: 0 <= i < |s| ==> r[i] == Lower(s[i])
  {
    seq(|s|, i requires 0 <= i < |s| => Lower(s[i]))
  }

  /** `strings.EqualFold` on ASCII: equal up to letter case. */
  predicate EqualFold(a: string, b: string)
  {
    |a| == |b| && forall i :: 0 <= i < |a| ==> Lower(a[i]) == Lower(b[i])
  }

  /** Folding case is an equivalence: two strings are equal up to case
      exactly when their lower-case forms are equal. */
  lemma EqualFoldIsLowerEquality(a: string, b: string)
    ensures EqualFold(a, b) <==> ToLower(a) == ToLower(b)
  {
    if ToLower(a) == ToLower(b) {
      assert |a| == |ToLower(a)| == |ToLower(b)| == |b|;
      forall i | 0 <= i < |a|
        ensures Lower(a[i]) == Lower(b[i])
      {
        assert ToLower(a)[i] == ToLower(b)[i];
      }
    }
  }

  /** The white space `strings.Fields` splits on, restricted to ASCII. */
  predicate IsSpace(c: char)
  {
    c == ' ' || c == '\t' || c == '\n' || c == '\r' || c == '\U{000B}' || c == '\U{000C}'
  }

  /** The length of the run of non-space characters that starts `s`. */
  function WordRun(s: string): (r: nat)
    ensures r <= |s|
    ensures r < |s| ==> IsSpace(s[r])
  {
    if s == [] || IsSpace(s[0]) then 0 else 1 + WordRun(s[1..])
  }

  /** The run `WordRun` measures holds no white space. */
  lemma {:induction false} WordRunChars(s: string)
    ensures forall i :: 0 <= i < WordRun(s) ==> !IsSpace(s[i])
    decreases |s|
  {
    if s != [] && !IsSpace(s[0]) {
      WordRunChars(s[1..]);
      forall i | 1 <= i < WordRun(s)
        ensures !IsSpace(s[i])
      {
        assert s[i] == s[1..][i - 1];
      }
    }
  }

  /** A field of `strings.Fields`: non-empty and free of white space. */
  predicate IsField(w: string)
  {
    w != [] && forall i :: 0 <= i < |w| ==> !IsSpace(w[i])
  }

  /** `strings.Fields(s)`: the maximal runs of non-space characters of `s`,
      in order. White space in front is skipped one character at a time;
      otherwise the word in front is the next field. */
  function Fields(s: string): seq<string>
    decreases |s|
  {
    if s == [] then []
    else if IsSpace(s[0]) then Fields(s[1..])
    else
      var b := WordRun(s);
      [s[..b]] + Fields(s[b..])
  }

  /** Every field is non-empty and free of white space. */
  lemma {:induction false} FieldsAreFields(s: string)
    ensures forall k :: 0 <= k < |Fields(s)| ==> IsField(Fields(s)[k])
    decreases |s|
  {
    if s == [] {
    } else if IsSpace(s[0]) {
      FieldsAreFields(s[1..]);
    } else {
      var b := WordRun(s);
      WordIsField(s);
      FieldsAreFields(s[b..]);
      var r := Fields(s[b..]);
      assert Fields(s) == [s[..b]] + r;
      forall k | 0 <= k < |[s[..b]] + r|
        ensures IsField(([s[..b]] + r)[k])
      {
        if 0 < k {
          assert ([s[..b]] + r)[k] == r[k - 1];
        }
      }
    }
  }

  /** The word at the front of a string that does not start with white space
      is a field. */
  lemma WordIsField(t: string)
    requires t != [] && !IsSpace(t[0])
    ensures IsField(t[..WordRun(t)])
  {
    var w := t[..WordRun(t)];
    WordRunChars(t);
    forall i | 0 <= i < |w|
      ensures !IsSpace(w[i])
    {
      assert w[i] == t[i];
    }
  }

  /** The fields joined with single spaces. */
  function Join(ws: seq<string>): string
  {
    if ws == [] then []
    else if |ws| == 1 then ws[0]
    else ws[0] + [' '] + Join(ws[1..])
  }

  /** A field followed by white space or nothing is one whole word. */
  lemma {:induction false} WordRunOfField(w: string, rest: string)
    requires IsField(w) && (rest == [] || IsSpace(rest[0]))
    ensures WordRun(w + rest) == |w|
    decreases |w|
  {
    var t := w + rest;
    assert t[0] == w[0];
    if |w| == 1 {
      assert t[1..] == rest;
    } else {
      assert t[1..] == w[1..] + rest;
      assert IsField(w[1..]) by {
        forall i | 0 <= i < |w| - 1
          ensures !IsSpace(w[1..][i])
        {
          assert w[1..][i] == w[i + 1];
        }
      }
      WordRunOfField(w[1..], rest);
    }
  }

  /** The fields of a field followed by white space or nothing: that field,
      then the fields of the rest. */
  lemma FieldsOfField(w: string, rest: string)
    requires IsField(w) && (rest == [] || IsSpace(rest[0]))
    ensures Fields(w + rest) == [w] + Fields(rest)
  {
    var t := w + rest;
    assert t[0] == w[0];
    WordRunOfField(w, rest);
    assert t[..|w|] == w;
    assert t[|w|..] == rest;
  }

  /** Splitting fields joined with single spaces gives the fields back. */
  lemma {:induction false} FieldsOfJoin(ws: seq<string>)
    requires forall k :: 0 <= k < |ws| ==> IsField(ws[k])
    ensures Fields(Join(ws)) == ws
    decreases |ws|
  {
    if ws == [] {
    } else if |ws| == 1 {
      FieldsOfField(ws[0], []);
      assert ws[0] + [] == ws[0];
    } else {
      var rest := [' '] + Join(ws[1..]);
      assert Join(ws) == ws[0] + rest;
      FieldsOfField(ws[0], rest);
      assert rest[1..] == Join(ws[1..]);
      FieldsOfJoin(ws[1..]);
      assert ws == [ws[0]] + ws[1..];
    }
  }

}
