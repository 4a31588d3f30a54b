/** The parts of Go's `strings` package the command-line tool relies on:
    `strings.Split` with a one-character separator, its inverse `Join`, and
    `strings.ToUpper` on ASCII text. */
module Text {

  /** `strings.Join(fields, string(sep))` for a non-empty list of fields. */
  function Join(fields: seq<string>, sep: char): string
    requires |fields| >= 1
    decreases |fields|
  {
    if |fields| == 1 then fields[0] else fields[0] + [sep] + Join(fields[1..], sep)
  }

  /** `strings.Split(s, string(sep))`: the maximal runs between separators,
      one more field than there are separators (so `""` gives `[""]`). The
      fields never contain the separator and join back to `s`. */
  function Split(s: string, sep: char): (r: seq<string>)
    ensures |r| >= 1
    ensures forall i :: 0 <= i < |r| ==> sep !in r[i]
    ensures Join(r, sep) == s
    decreases |s|
  {
    if |s| == 0 then [""]
    else
      var rest := Split(s[1..], sep);
      if s[0] == sep then
        assert [sep] + s[1..] == s;
        [""] + rest
      else
        var r := [[s[0]] + rest[0]] + rest[1..];
        assert r[1..] == rest[1..];
        assert forall i :: 1 <= i < |r| ==> r[i] == rest[i];
        assert [s[0]] + s[1..] == s;
        r
  }

  /** Splitting after a leading separator gives an empty first field. */
  lemma SplitAfterSep(s: string, sep: char)
    ensures Split([sep] + s, sep) == [""] + Split(s, sep)
  {
    assert ([sep] + s)[1..] == s;
  }

  /** Splitting after a leading non-separator puts it in front of the first field. */
  lemma SplitAfterChar(c: char, s: string, sep: char)
    requires c != sep
    ensures Split([c] + s, sep) == [[c] + Split(s, sep)[0]] + Split(s, sep)[1..]
  {
    assert ([c] + s)[1..] == s;
  }

  /** Joining fields whose first field is non-empty starts with that field's
      first character, followed by the join with that character removed. */
  lemma JoinFirstChar(fields: seq<string>, sep: char)
    requires |fields| >= 1 && |fields[0]| > 0
    ensures Join(fields, sep) == [fields[0][0]] + Join([fields[0][1..]] + fields[1..], sep)
  {
    var f := fields[0];
    var shorter := [f[1..]] + fields[1..];
    assert shorter[1..] == fields[1..];
    assert f == [f[0]] + f[1..];
    if |fields| > 1 {
      assert Join(shorter, sep) == f[1..] + [sep] + Join(fields[1..], sep);
    }
  }

  /** Splitting undoes joining when no field holds the separator. */
  lemma {:induction false} SplitJoin(fields: seq<string>, sep: char)
    requires |fields| >= 1
    requires forall i :: 0 <= i < |fields| ==> sep !in fields[i]
    ensures Split(Join(fields, sep), sep) == fields
    decreases |fields|, |fields[0]|
  {
    var f := fields[0];
    if |f| == 0 {
      if |fields| > 1 {
        SplitJoin(fields[1..], sep);
        SplitAfterSep(Join(fields[1..], sep), sep);
        assert Join(fields, sep) == [sep] + Join(fields[1..], sep);
        assert fields == [""] + fields[1..];
      }
    } else {
      var shorter := [f[1..]] + fields[1..];
      assert shorter[1..] == fields[1..];
      assert forall i :: 1 <= i < |shorter| ==> shorter[i] == fields[i];
      assert f[0] in f;
      SplitJoin(shorter, sep);
      JoinFirstChar(fields, sep);
      SplitAfterChar(f[0], Join(shorter, sep), sep);
      assert [f[0]] + f[1..] == f;
      assert fields == [f] + fields[1..];
    }
  }

  /** The upper-case form of an ASCII letter; every other character is kept. */
  function UpperAscii(c: char): char {
    if 'a' <= c <= 'z' then (c as int - 32) as char else c
  }

  /** `strings.ToUpper`, restricted to ASCII letters. */
  function ToUpper(s: string): (r: string)
    ensures |r| == |s|
    ensures forall i :: 0 <= i < |s| ==> r[i] == UpperAscii(s[i])
  {
    seq(|s|, i requires 0 <= i < |s| => UpperAscii(s[i]))
  }

  /** Upper-casing is idempotent and leaves no lower-case ASCII letter behind. */
  lemma ToUpperIdempotent(s: string)
    ensures ToUpper(ToUpper(s)) == ToUpper(s)
    ensures forall i :: 0 <= i < |s| ==> !('a' <= ToUpper(s)[i] <= 'z')
  {
  }
}
