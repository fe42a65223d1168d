/**
 * Splitting and joining strings on a one-character separator, as Ruby's
 * String#split and Array#join do it for the separators used here, '/' and
 * newline. Ruby's special split(' '), which splits on runs of whitespace, is
 * not modelled.
 */
module Strings {

  /** Every field of s between separators, empty ones included: "a//b" has the fields "a", "", "b". */
  function Fields(s: string, sep: char): (r: seq<string>)
    ensures |r| >= 1
    ensures forall i :: 0 <= i < |r| ==> sep !in r[i]
    decreases |s|
  {
    if s == [] then [""]
    else
      var rest := Fields(s[1..], sep);
      if s[0] == sep then [""] + rest
      else [[s[0]] + rest[0]] + rest[1..]
  }

  /** Array#join(sep): the parts with one separator between neighbours, "" for no parts. */
  function Join(parts: seq<string>, sep: char): string
    decreases |parts|
  {
    if |parts| == 0 then ""
    else if |parts| == 1 then parts[0]
    else parts[0] + [sep] + Join(parts[1..], sep)
  }

  /** A join ends with its last part. */
  lemma {:induction false} JoinEnds(parts: seq<string>, sep: char)
    requires |parts| >= 1
    ensures var j := Join(parts, sep); var last := parts[|parts| - 1];
      |last| <= |j| && j[|j| - |last|..] == last
    decreases |parts|
  {
    if |parts| > 1 {
      JoinEnds(parts[1..], sep);
      var rest := Join(parts[1..], sep);
      var last := parts[|parts| - 1];
      assert parts[1..][|parts[1..]| - 1] == last;
      var j := parts[0] + [sep] + rest;
      assert j[|j| - |last|..] == rest[|rest| - |last|..];
    }
  }

  /** Fields with its trailing empty fields removed. */
  function TrimTrailingEmpty(fs: seq<string>): (r: seq<string>)
    ensures r <= fs
    ensures r != [] ==> r[|r| - 1] != ""
    ensures forall i :: |r| <= i < |fs| ==> fs[i] == ""
    decreases |fs|
  {
    if fs == [] then []
    else if fs[|fs| - 1] == "" then TrimTrailingEmpty(fs[..|fs| - 1])
    else fs
  }

  /**
   * String#split with a one-character string: the fields of s, except that
   * trailing empty fields are dropped. So "a/b/" gives ["a", "b"], "/a" gives
   * ["", "a"], and "" or "//" give [].
   */
  function Split(s: string, sep: char): (r: seq<string>)
    ensures r <= Fields(s, sep)
    ensures forall i :: |r| <= i < |Fields(s, sep)| ==> Fields(s, sep)[i] == ""
    ensures forall i :: 0 <= i < |r| ==> sep !in r[i]
    ensures r != [] ==> r[|r| - 1] != ""
    ensures r == [] <==> forall i :: 0 <= i < |s| ==> s[i] == sep
  {
    FieldsAllEmpty(s, sep);
    TrimTrailingEmpty(Fields(s, sep))
  }

  /** All fields are empty exactly when s holds nothing but separators. */
  lemma {:induction false} FieldsAllEmpty(s: string, sep: char)
    ensures (forall i :: 0 <= i < |Fields(s, sep)| ==> Fields(s, sep)[i] == "")
            <==> (forall j :: 0 <= j < |s| ==> s[j] == sep)
    decreases |s|
  {
    if s != [] {
      FieldsAllEmpty(s[1..], sep);
      var rest := Fields(s[1..], sep);
      if s[0] == sep {
        var f := Fields(s, sep);
        assert f == [""] + rest;
        assert forall i :: 0 < i < |f| ==> f[i] == rest[i - 1];
        assert forall i :: 0 <= i < |rest| ==> rest[i] == f[i + 1];
        assert forall j :: 0 < j < |s| ==> s[j] == s[1..][j - 1];
        assert forall j :: 0 <= j < |s[1..]| ==> s[1..][j] == s[j + 1];
      } else {
        assert Fields(s, sep)[0] == [s[0]] + rest[0];
      }
    }
  }

  /** Joining the fields of s gives s back. */
  lemma {:induction false} JoinFields(s: string, sep: char)
    ensures Join(Fields(s, sep), sep) == s
    decreases |s|
  {
    if s != [] {
      var rest := Fields(s[1..], sep);
      JoinFields(s[1..], sep);
      var f := Fields(s, sep);
      if s[0] == sep {
        assert f == [""] + rest;
        assert f[1..] == rest;
        assert Join(f, sep) == "" + [sep] + Join(rest, sep);
      } else {
        assert f == [[s[0]] + rest[0]] + rest[1..];
        if |rest| > 1 {
          assert f[1..] == rest[1..];
          assert Join(rest, sep) == rest[0] + [sep] + Join(rest[1..], sep);
        }
      }
    }
  }

  /** A leading run w without separators becomes the front of the first field. */
  lemma {:induction false} FieldsPrefix(w: string, s: string, sep: char)
    requires sep !in w
    ensures Fields(w + s, sep) == [w + Fields(s, sep)[0]] + Fields(s, sep)[1..]
    decreases |w|
  {
    if w == [] {
      var f := Fields(s, sep);
      assert w + s == s;
      assert w + f[0] == f[0];
      assert f == [f[0]] + f[1..];
    } else {
      assert (w + s)[0] == w[0];
      assert (w + s)[1..] == w[1..] + s;
      FieldsPrefix(w[1..], s, sep);
      assert [w[0]] + (w[1..] + Fields(s, sep)[0]) == w + Fields(s, sep)[0];
    }
  }

  /** Splitting a join on the separator gives the parts back when none contains it. */
  lemma {:induction false} FieldsJoin(parts: seq<string>, sep: char)
    requires |parts| >= 1
    requires forall i :: 0 <= i < |parts| ==> sep !in parts[i]
    ensures Fields(Join(parts, sep), sep) == parts
    decreases |parts|
  {
    if |parts| == 1 {
      FieldsPrefix(parts[0], "", sep);
      assert parts[0] + "" == parts[0];
    } else {
      var j := Join(parts[1..], sep);
      FieldsJoin(parts[1..], sep);
      var t := [sep] + j;
      assert t[0] == sep && t[1..] == j;
      assert Fields(t, sep) == [""] + Fields(j, sep);
      FieldsPrefix(parts[0], t, sep);
      assert parts[0] + t == Join(parts, sep);
      assert parts[0] + "" == parts[0];
      assert parts == [parts[0]] + parts[1..];
    }
  }
}
