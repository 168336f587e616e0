/** The helpers of the flag code generator (scripts/cli/main.go). Strings
    are sequences of characters taken one byte each. */
module Cli {

  /** `FlagType`: the flag type generated for a field type. */
  function FlagType(t: string): (r: string)
    ensures r == "unknown" <==> t != "int" && t != "bool" && t != "int64"
    ensures r != "unknown" ==> |r| > 4 && r[|r| - 4..] == "Flag"
  {
    match t
    case "int" => "IntFlag"
    case "bool" => "BoolFlag"
    case "int64" => "Int64Flag"
    case _ => "unknown"
  }

  /** `ContextMethod`: the context getter generated for a field type. */
  function ContextMethod(t: string): (r: string)
    ensures r == "unknown" <==> t != "int" && t != "bool" && t != "int64"
    ensures r != "unknown" ==> |t| > 0 && |r| > 0 && r[0] == Upper(t[0])
  {
    match t
    case "int" => "Int"
    case "bool" => "Bool"
    case "int64" => "Int64"
    case _ => "unknown"
  }

  /** The two tables know the same three types, and a flag type is its
      getter's name followed by "Flag". */
  lemma FlagTypeMatchesContextMethod(t: string)
    ensures FlagType(t) == "unknown" <==> t != "int" && t != "bool" && t != "int64"
    ensures ContextMethod(t) == "unknown" <==> FlagType(t) == "unknown"
    ensures FlagType(t) != "unknown" ==> FlagType(t) == ContextMethod(t) + "Flag"
  {
  }

  /** `strings.TrimLeft(s, "\n")`: drops every leading newline. */
  function TrimLeft(s: string): (r: string)
    ensures r == [] || r[0] != '\n'
    ensures |r| <= |s| && r == s[|s| - |r|..]
    ensures forall i :: 0 <= i < |s| - |r| ==> s[i] == '\n'
  {
    if s != [] && s[0] == '\n' then TrimLeft(s[1..]) else s
  }

  /** Trimming twice trims no more. */
  lemma TrimLeftIdempotent(s: string)
    ensures TrimLeft(TrimLeft(s)) == TrimLeft(s)
  {
  }

  /** The first index of `c` in `s`. */
  function IndexOf(s: string, c: char): (i: nat)
    requires c in s
    ensures i < |s| && s[i] == c && c !in s[..i]
  {
    if s[0] == c then 0 else 1 + IndexOf(s[1..], c)
  }

  /** `strings.Split(s, "-")`: the text between the dashes; a string
      without a dash is one part, the empty string included. */
  function Split(s: string): (parts: seq<string>)
    ensures |parts| == Count(s, '-') + 1
    ensures forall i :: 0 <= i < |parts| ==> '-' !in parts[i]
    ensures Join(parts) == s
    decreases |s|
  {
    if '-' !in s then
      CountAbsent(s, '-');
      [s]
    else
      var i := IndexOf(s, '-');
      var rest := Split(s[i + 1..]);
      CountSplit(s, i, '-');
      [s[..i]] + rest
  }

  /** The parts written back with a dash between each two. */
  function Join(parts: seq<string>): string
    requires parts != []
  {
    if |parts| == 1 then parts[0] else parts[0] + "-" + Join(parts[1..])
  }

  /** Occurrences of `c` in `s`. */
  function Count(s: string, c: char): nat
  {
    if s == [] then 0 else (if s[0] == c then 1 else 0) + Count(s[1..], c)
  }

  lemma {:induction false} CountAbsent(s: string, c: char)
    requires c !in s
    ensures Count(s, c) == 0
  {
    if s != [] {
      CountAbsent(s[1..], c);
    }
  }

  lemma {:induction false} CountAppend(a: string, b: string, c: char)
    ensures Count(a + b, c) == Count(a, c) + Count(b, c)
  {
    if a == [] {
      assert a + b == b;
    } else {
      assert (a + b)[0] == a[0] && (a + b)[1..] == a[1..] + b;
      CountAppend(a[1..], b, c);
    }
  }

  lemma CountSplit(s: string, i: nat, c: char)
    requires i < |s| && s[i] == c && c !in s[..i]
    ensures Count(s, c) == 1 + Count(s[i + 1..], c)
  {
    assert s == s[..i] + [c] + s[i + 1..];
    CountAppend(s[..i] + [c], s[i + 1..], c);
    CountAppend(s[..i], [c], c);
    CountAbsent(s[..i], c);
  }

  /** `strings.ToUpper` on one ASCII character. */
  function Upper(c: char): char
  {
    if 'a' <= c <= 'z' then (c as int - 32) as char else c
  }

  /** No part is empty. */
  predicate Filled(parts: seq<string>)
  {
    forall i :: 0 <= i < |parts| ==> parts[i] != []
  }

  /** Each part with its first character upper-cased, concatenated. */
  function Capitalized(parts: seq<string>): string
    requires Filled(parts)
  {
    if parts == [] then []
    else Capitalized(parts[..|parts| - 1]) + [Upper(parts[|parts| - 1][0])] + parts[|parts| - 1][1..]
  }

  /** What `Cap` returns; every part of the split must be non-empty, since
      `p[0:1]` panics on an empty part. */
  function CapOf(s: string): string
    requires Filled(Split(s))
  {
    Capitalized(Split(s))
  }

  /** `Cap`: splits at the dashes and joins the parts, each with its first
      character upper-cased. */
  method Cap(s: string) returns (all: string)
    requires Filled(Split(s))
    ensures all == CapOf(s)
    ensures '-' !in all
  {
    var parts := Split(s);
    all := "";
    var i := 0;
    while i < |parts|
      invariant 0 <= i <= |parts|
      invariant all == Capitalized(parts[..i])
    {
      var p := parts[i];
      var cap := [Upper(p[0])];
      assert parts[..i + 1][..i] == parts[..i];
      all := all + cap + p[1..];
      i := i + 1;
    }
    assert parts[..|parts|] == parts;
    CapitalizedNoDash(parts);
  }

  /** No dash survives: the parts have none and upper-casing makes none. */
  lemma {:induction false} CapitalizedNoDash(parts: seq<string>)
    requires Filled(parts) && forall i :: 0 <= i < |parts| ==> '-' !in parts[i]
    ensures '-' !in Capitalized(parts)
  {
    if parts != [] {
      var last := parts[|parts| - 1];
      CapitalizedNoDash(parts[..|parts| - 1]);
      assert forall j :: 1 <= j < |last| ==> last[j] in last;
    }
  }

  /** The capitalized parts are as long as the parts together. */
  lemma {:induction false} CapitalizedLength(parts: seq<string>)
    requires Filled(parts)
    ensures |Capitalized(parts)| == Lengths(parts)
  {
    if parts != [] {
      CapitalizedLength(parts[..|parts| - 1]);
      LengthsSnoc(parts);
    }
  }

  /** The total length of the parts. */
  function Lengths(parts: seq<string>): nat
  {
    if parts == [] then 0 else |parts[0]| + Lengths(parts[1..])
  }

  lemma {:induction false} LengthsSnoc(parts: seq<string>)
    requires parts != []
    ensures Lengths(parts) == Lengths(parts[..|parts| - 1]) + |parts[|parts| - 1]|
  {
    if |parts| > 1 {
      assert parts[1..][..|parts[1..]| - 1] == parts[..|parts| - 1][1..];
      LengthsSnoc(parts[1..]);
    }
  }

  lemma {:induction false} JoinLength(parts: seq<string>)
    requires parts != []
    ensures |Join(parts)| == Lengths(parts) + |parts| - 1
  {
    if |parts| > 1 {
      JoinLength(parts[1..]);
    }
  }

  /** `Cap` drops exactly the dashes: its result is as long as the input
      less its dashes. */
  lemma CapLength(s: string)
    requires Filled(Split(s))
    ensures |CapOf(s)| == |s| - Count(s, '-')
  {
    CapitalizedLength(Split(s));
    JoinLength(Split(s));
  }

  /** Upper-casing an upper-cased character changes nothing. */
  lemma UpperIdempotent(c: char)
    ensures Upper(Upper(c)) == Upper(c)
  {
  }

  /** `Cap` is idempotent on inputs it accepts. */
  lemma CapIdempotent(s: string)
    requires Filled(Split(s))
    ensures Filled(Split(CapOf(s)))
    ensures CapOf(CapOf(s)) == CapOf(s)
  {
    var parts := Split(s);
    var c := CapOf(s);
    CapitalizedFirst(parts);
    CapitalizedNoDash(parts);
    assert Split(c) == [c];
    var one: seq<string> := [c];
    assert one[..0] == [] && Capitalized(one[..0]) == [];
    UpperIdempotent(parts[0][0]);
    assert Capitalized(one) == [Upper(c[0])] + c[1..];
    assert c == [c[0]] + c[1..];
  }

  /** The capitalized parts start with the first part's first character upper-cased. */
  lemma {:induction false} CapitalizedFirst(parts: seq<string>)
    requires parts != [] && Filled(parts)
    ensures Capitalized(parts) != [] && Capitalized(parts)[0] == Upper(parts[0][0])
  {
    if |parts| > 1 {
      var pre := parts[..|parts| - 1];
      assert pre[0] == parts[0];
      CapitalizedFirst(pre);
    } else {
      assert |parts[..0]| == 0;
    }
  }

  /** `unicode.IsSpace`: the Latin-1 spaces and the other White_Space characters. */
  predicate IsSpace(c: char)
  {
    c == '\t' || c == '\n' || c == '\U{000B}' || c == '\U{000C}' || c == '\r' || c == ' '
    || c == '\U{0085}' || c == '\U{00A0}' || c == '\U{1680}' || '\U{2000}' <= c <= '\U{200A}'
    || c == '\U{2028}' || c == '\U{2029}' || c == '\U{202F}' || c == '\U{205F}' || c == '\U{3000}'
  }

  /** The dynamic value of a field's default, as the YAML decoder yields it. */
  datatype Value = Str(s: string) | Num(n: int) | Other

  /** What `DefaultValue` renders: nothing, or a `Value:` line formatted
      with the verb `%d` or `%s` from the value. */
  datatype Default = Empty | Formatted(verb: char, v: Value)

  /** `DefaultValue`: nothing for a blank string default; otherwise a line
      for int, int64 and string fields, nothing for any other type. */
  function DefaultValue(ty: string, t: Value): (r: Default)
    ensures r == Empty <==>
              (t.Str? && forall i :: 0 <= i < |t.s| ==> IsSpace(t.s[i]))
              || (ty != "int" && ty != "int64" && ty != "string")
    ensures r.Formatted? ==> r.v == t && r.verb == (if ty == "string" then 's' else 'd')
  {
    if t.Str? && Blank(t.s) then Empty
    else
      match ty
      case "int" => Formatted('d', t)
      case "int64" => Formatted('d', t)
      case "string" => Formatted('s', t)
      case _ => Empty
  }

  /** `strings.TrimSpace(s) == ""`, computed character by character. */
  function Blank(s: string): (b: bool)
    ensures b <==> forall i :: 0 <= i < |s| ==> IsSpace(s[i])
  {
    if s == [] then true else IsSpace(s[0]) && Blank(s[1..])
  }
}
