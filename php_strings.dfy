/**
 * The few PHP string built-ins the plugin relies on: `empty()` on strings,
 * `explode`, `implode`, `current(...)` of an exploded string, `array_slice(.., -2)`
 * and `nl2br`.
 */
module PhpStrings {
  import opened Wrappers

  /** `empty($s)` for a string: both "" and "0" are empty in PHP. */
  predicate IsEmpty(s: string) {
    s == "" || s == "0"
  }

  /** `empty($a[$k])` for an array slot that may be unset (null) or hold a string. */
  predicate Blank(v: Option<string>) {
    v.None? || IsEmpty(v.value)
  }

  /** A possibly-unset slot used in string context: null reads as "". */
  function OrEmpty(v: Option<string>): string {
    if v.Some? then v.value else ""
  }

  /** `explode($sep, $s)`: the pieces of `s` between occurrences of `sep`. */
  function Explode(s: string, sep: char): (parts: seq<string>)
    ensures |parts| >= 1
    ensures forall i :: 0 <= i < |parts| ==> sep !in parts[i]
  {
    if s == [] then [""]
    else
      var rest := Explode(s[1..], sep);
      if s[0] == sep then [""] + rest
      else [[s[0]] + rest[0]] + rest[1..]
  }

  /** `implode($sep, $parts)`. */
  function Implode(sep: char, parts: seq<string>): string
  {
    if |parts| == 0 then ""
    else if |parts| == 1 then parts[0]
    else parts[0] + [sep] + Implode(sep, parts[1..])
  }

  /** `current(explode('/', $s))`: the text before the first '/', which is a plugin's slug. */
  function FirstSegment(s: string): string {
    Explode(s, '/')[0]
  }

  /** `array_slice($parts, -2)`: the last two elements, or all of them when fewer. */
  function LastTwo<T>(parts: seq<T>): (r: seq<T>)
    ensures |r| == if |parts| < 2 then |parts| else 2
    ensures r == parts[|parts| - |r|..]
  {
    if |parts| <= 2 then parts else parts[|parts| - 2..]
  }

  /** Exploding and imploding again with the same separator gives back the string. */
  lemma {:induction false} ImplodeExplode(s: string, sep: char)
    ensures Implode(sep, Explode(s, sep)) == s
  {
    if s != [] {
      var rest := Explode(s[1..], sep);
      ImplodeExplode(s[1..], sep);
      if s[0] == sep {
        calc {
          Implode(sep, Explode(s, sep));
          Implode(sep, [""] + rest);
          { assert ([""] + rest)[1..] == rest; }
          "" + [sep] + Implode(sep, rest);
          [s[0]] + s[1..];
        }
      } else if |rest| == 1 {
        calc {
          Implode(sep, Explode(s, sep));
          [s[0]] + rest[0];
          [s[0]] + Implode(sep, rest);
        }
      } else {
        var parts := [[s[0]] + rest[0]] + rest[1..];
        assert parts[1..] == rest[1..];
        calc {
          Implode(sep, parts);
          [s[0]] + rest[0] + [sep] + Implode(sep, rest[1..]);
          [s[0]] + (rest[0] + [sep] + Implode(sep, rest[1..]));
          [s[0]] + Implode(sep, rest);
        }
      }
      assert [s[0]] + s[1..] == s;
    }
  }

  /** Exploding a string that starts with a separator opens a new, empty first piece. */
  lemma ExplodeConsSep(r: string, sep: char)
    ensures Explode([sep] + r, sep) == [""] + Explode(r, sep)
  {
    assert ([sep] + r)[1..] == r;
  }

  /** Exploding a string that starts with another character extends the first piece. */
  lemma ExplodeCons(c: char, r: string, sep: char)
    requires c != sep
    ensures Explode([c] + r, sep) == [[c] + Explode(r, sep)[0]] + Explode(r, sep)[1..]
  {
    assert ([c] + r)[1..] == r;
  }

  /** Exploding `p + t`, where `p` holds no separator, glues `p` onto the first piece of `t`. */
  lemma {:induction false} ExplodePrefix(p: string, t: string, sep: char)
    requires sep !in p
    ensures Explode(p + t, sep) == [p + Explode(t, sep)[0]] + Explode(t, sep)[1..]
  {
    var e := Explode(t, sep);
    if p == [] {
      assert p + t == t && p + e[0] == e[0];
      assert e == [e[0]] + e[1..];
    } else {
      ExplodePrefix(p[1..], t, sep);
      assert p + t == [p[0]] + (p[1..] + t);
      ExplodeCons(p[0], p[1..] + t, sep);
      assert [p[0]] + (p[1..] + e[0]) == p + e[0];
    }
  }

  /** Imploding separator-free pieces and exploding again gives back the pieces. */
  lemma {:induction false} ExplodeImplode(parts: seq<string>, sep: char)
    requires |parts| >= 1
    requires forall i :: 0 <= i < |parts| ==> sep !in parts[i]
    ensures Explode(Implode(sep, parts), sep) == parts
  {
    if |parts| == 1 {
      ExplodePrefix(parts[0], "", sep);
      assert parts[0] + "" == parts[0];
      assert parts == [parts[0]];
    } else {
      var tail := Implode(sep, parts[1..]);
      ExplodeImplode(parts[1..], sep);
      ExplodePrefix(parts[0], [sep] + tail, sep);
      assert parts[0] + [sep] + tail == parts[0] + ([sep] + tail);
      ExplodeConsSep(tail, sep);
      assert Explode([sep] + tail, sep) == [""] + parts[1..];
      assert parts[0] + "" == parts[0];
      assert Implode(sep, parts) == parts[0] + [sep] + tail;
      assert parts == [parts[0]] + parts[1..];
    }
  }

  /** Imploding two non-empty lists joined end to end puts one separator between them. */
  lemma {:induction false} ImplodeAppend(xs: seq<string>, ys: seq<string>, sep: char)
    requires |xs| >= 1 && |ys| >= 1
    ensures Implode(sep, xs + ys) == Implode(sep, xs) + [sep] + Implode(sep, ys)
  {
    if |xs| > 1 {
      ImplodeAppend(xs[1..], ys, sep);
      assert (xs + ys)[1..] == xs[1..] + ys;
    } else {
      assert (xs + ys)[1..] == ys;
    }
  }

  /** The first segment is the longest prefix of `s` without a '/'. */
  lemma {:induction false} FirstSegmentIsPrefix(s: string)
    ensures FirstSegment(s) <= s
    ensures '/' !in FirstSegment(s)
    ensures |FirstSegment(s)| < |s| ==> s[|FirstSegment(s)|] == '/'
  {
    if s != [] && s[0] != '/' {
      FirstSegmentIsPrefix(s[1..]);
      assert FirstSegment(s) == [s[0]] + FirstSegment(s[1..]);
    }
  }

  /** `nl2br`: inserts "<br />" before each line break ("\r\n", "\n\r", "\n" or "\r"). */
  function Nl2br(s: string): string
    decreases |s|
  {
    if s == [] then ""
    else if |s| >= 2 && ((s[0] == '\r' && s[1] == '\n') || (s[0] == '\n' && s[1] == '\r')) then
      "<br />" + s[..2] + Nl2br(s[2..])
    else if s[0] == '\n' || s[0] == '\r' then
      "<br />" + [s[0]] + Nl2br(s[1..])
    else
      [s[0]] + Nl2br(s[1..])
  }

  /** Text without line breaks passes through `nl2br` untouched. */
  lemma {:induction false} Nl2brWithoutBreaks(s: string)
    requires forall i :: 0 <= i < |s| ==> s[i] != '\n' && s[i] != '\r'
    ensures Nl2br(s) == s
  {
    if s != [] {
      Nl2brWithoutBreaks(s[1..]);
      assert s == [s[0]] + s[1..];
    }
  }
}
