/** `Inflection.camelcase`: snake_case to CamelCase, as used to turn command
    names and handler ids into constant names. Case mapping is ASCII only. */
module Inflection {
  import opened Strings

  function Upcase(c: char): char
  {
    if 'a' <= c <= 'z' then (c as int - 32) as char else c
  }

  function Downcase(c: char): char
  {
    if 'A' <= c <= 'Z' then (c as int + 32) as char else c
  }

  /** `String#downcase` */
  function Downcased(s: string): (r: string)
    ensures |r| == |s|
    ensures forall i :: 0 <= i < |s| ==> r[i] == Downcase(s[i])
    decreases |s|
  {
    if |s| == 0 then "" else [Downcase(s[0])] + Downcased(s[1..])
  }

  /** `String#capitalize`: the first character upcased, every other one
      downcased, characters without case left alone. */
  function Capitalize(s: string): (r: string)
    ensures |r| == |s|
    ensures |s| > 0 ==> r[0] == Upcase(s[0])
    ensures forall i :: 1 <= i < |s| ==> r[i] == Downcase(s[i])
  {
    if |s| == 0 then "" else [Upcase(s[0])] + Downcased(s[1..])
  }

  /** `Capitalize` applied to every part */
  function CapitalizeAll(parts: seq<string>): (r: seq<string>)
    ensures |r| == |parts|
    ensures forall i :: 0 <= i < |parts| ==> r[i] == Capitalize(parts[i])
  {
    seq(|parts|, i requires 0 <= i < |parts| => Capitalize(parts[i]))
  }

  /** Reference reading of `camelcase` as one pass over the characters:
      underscores are dropped, the character after the start or after an
      underscore is upcased, every other character is downcased. */
  function Scan(s: string, atStart: bool): string
    decreases |s|
  {
    if |s| == 0 then ""
    else if s[0] == '_' then Scan(s[1..], true)
    else [if atStart then Upcase(s[0]) else Downcase(s[0])] + Scan(s[1..], false)
  }

  lemma {:induction false} ScanFacts(s: string, atStart: bool)
    ensures '_' !in Scan(s, atStart)
    ensures |Scan(s, atStart)| == |s| - Count(s, '_')
    decreases |s|
  {
    if |s| > 0 {
      ScanFacts(s[1..], s[0] == '_');
      ScanFacts(s[1..], atStart);
      ScanFacts(s[1..], true);
      ScanFacts(s[1..], false);
    }
  }

  lemma {:induction false} ConcatAppend(a: seq<string>, b: seq<string>)
    ensures Concat(a + b) == Concat(a) + Concat(b)
    decreases |a|
  {
    if |a| == 0 {
      assert a + b == b;
    } else {
      assert (a + b)[1..] == a[1..] + b;
      ConcatAppend(a[1..], b);
    }
  }

  lemma ConcatCapitalizeCons(parts: seq<string>)
    requires |parts| > 0
    ensures Concat(CapitalizeAll(parts)) == Capitalize(parts[0]) + Concat(CapitalizeAll(parts[1..]))
  {
    assert CapitalizeAll(parts)[1..] == CapitalizeAll(parts[1..]);
  }

  lemma CapitalizeAllSnoc(parts: seq<string>, last: string)
    ensures CapitalizeAll(parts + [last]) == CapitalizeAll(parts) + [Capitalize(last)]
  {
    var l := CapitalizeAll(parts + [last]);
    var r := CapitalizeAll(parts) + [Capitalize(last)];
    assert |l| == |r|;
    forall i | 0 <= i < |l|
      ensures l[i] == r[i]
    {
      if i < |parts| {
        assert (parts + [last])[i] == parts[i];
      }
    }
  }

  /** Capitalizing and concatenating ignores trailing empty parts. */
  lemma {:induction false} ConcatCapitalizeDrop(fs: seq<string>)
    ensures Concat(CapitalizeAll(DropTrailingEmpty(fs))) == Concat(CapitalizeAll(fs))
    decreases |fs|
  {
    if |fs| > 0 && fs[|fs| - 1] == "" {
      var init := fs[..|fs| - 1];
      ConcatCapitalizeDrop(init);
      CapitalizeAllSnoc(init, "");
      assert fs == init + [""];
      ConcatAppend(CapitalizeAll(init), [""]);
      assert Concat([""]) == "";
    }
  }

  /** The scan from a position equals capitalizing (or, mid-word, downcasing)
      the first field and capitalizing every later one. */
  lemma {:induction false} ScanOfFields(s: string)
    ensures var f := Fields(s, '_');
      Scan(s, true) == Capitalize(f[0]) + Concat(CapitalizeAll(f[1..]))
    ensures var f := Fields(s, '_');
      Scan(s, false) == Downcased(f[0]) + Concat(CapitalizeAll(f[1..]))
    decreases |s|
  {
    if |s| == 0 {
      assert Fields(s, '_') == [""];
    } else {
      ScanOfFields(s[1..]);
      if s[0] == '_' {
        ScanOfFieldsUnderscore(s);
      } else {
        ScanOfFieldsOther(s, true);
        ScanOfFieldsOther(s, false);
      }
    }
  }

  lemma ScanOfFieldsUnderscore(s: string)
    requires |s| > 0 && s[0] == '_'
    requires var f := Fields(s[1..], '_');
      Scan(s[1..], true) == Capitalize(f[0]) + Concat(CapitalizeAll(f[1..]))
    ensures var f := Fields(s, '_');
      Scan(s, true) == Capitalize(f[0]) + Concat(CapitalizeAll(f[1..]))
    ensures var f := Fields(s, '_');
      Scan(s, false) == Downcased(f[0]) + Concat(CapitalizeAll(f[1..]))
  {
    var rest := Fields(s[1..], '_');
    var f := Fields(s, '_');
    assert f == [""] + rest;
    assert f[0] == "" && f[1..] == rest;
    ConcatCapitalizeCons(rest);
    var tail := Concat(CapitalizeAll(rest));
    assert Capitalize(f[0]) == "" && Downcased(f[0]) == "";
    assert Scan(s, true) == Scan(s[1..], true) == tail;
    assert Scan(s, false) == Scan(s[1..], true);
  }

  lemma CapitalizeCons(c: char, r0: string)
    ensures Capitalize([c] + r0) == [Upcase(c)] + Downcased(r0)
    ensures Downcased([c] + r0) == [Downcase(c)] + Downcased(r0)
  {
    assert ([c] + r0)[1..] == r0;
  }

  lemma Regroup(x: string, y: string, z: string)
    ensures x + (y + z) == (x + y) + z
  {
  }

  lemma ScanStep(c: char, atStart: bool, r0: string, later: seq<string>, scanned: string)
    requires scanned == Downcased(r0) + Concat(CapitalizeAll(later))
    ensures [if atStart then Upcase(c) else Downcase(c)] + scanned
         == (if atStart then Capitalize([c] + r0) else Downcased([c] + r0)) + Concat(CapitalizeAll(later))
  {
    var head := if atStart then Capitalize([c] + r0) else Downcased([c] + r0);
    var first := if atStart then Upcase(c) else Downcase(c);
    CapitalizeCons(c, r0);
    assert head == [first] + Downcased(r0);
    Regroup([first], Downcased(r0), Concat(CapitalizeAll(later)));
  }

  lemma ScanOfFieldsOther(s: string, atStart: bool)
    requires |s| > 0 && s[0] != '_'
    requires var f := Fields(s[1..], '_');
      Scan(s[1..], false) == Downcased(f[0]) + Concat(CapitalizeAll(f[1..]))
    ensures var f := Fields(s, '_');
      Scan(s, atStart) == (if atStart then Capitalize(f[0]) else Downcased(f[0])) + Concat(CapitalizeAll(f[1..]))
  {
    var rest := Fields(s[1..], '_');
    var f := Fields(s, '_');
    assert f[0] == [s[0]] + rest[0] && f[1..] == rest[1..];
    ScanStep(s[0], atStart, rest[0], rest[1..], Scan(s[1..], false));
  }

  /** `camelcase`: split on `_`, capitalize each segment, concatenate. The
      result is the character scan above; it holds no underscore and is one
      character shorter per underscore of the input. */
  function Camelcase(s: string): (r: string)
    ensures r == Scan(s, true)
    ensures '_' !in r
    ensures |r| == |s| - Count(s, '_')
  {
    var f := Fields(s, '_');
    ConcatCapitalizeDrop(f);
    ScanOfFields(s);
    ConcatCapitalizeCons(f);
    ScanFacts(s, true);
    Concat(CapitalizeAll(Split(s, '_')))
  }

  /** Camelcasing underscore-joined segments capitalizes each segment. */
  lemma CamelcaseOfJoin(segments: seq<string>)
    requires |segments| > 0
    requires forall i :: 0 <= i < |segments| ==> '_' !in segments[i]
    ensures Camelcase(Join(segments, "_")) == Concat(CapitalizeAll(segments))
  {
    FieldsOfJoin(segments, '_');
    ConcatCapitalizeDrop(segments);
  }

  /** An underscore restarts capitalization whatever came before it. */
  lemma {:induction false} ScanAtUnderscore(a: string, b: string, atStart: bool)
    requires '_' !in a
    ensures Scan(a + "_" + b, atStart) == Scan(a, atStart) + Scan(b, true)
    decreases |a|
  {
    if |a| == 0 {
      assert a + "_" + b == "_" + b;
      assert ("_" + b)[1..] == b;
    } else {
      assert (a + "_" + b)[0] == a[0];
      assert (a + "_" + b)[1..] == a[1..] + "_" + b;
      ScanAtUnderscore(a[1..], b, false);
    }
  }

  // Scans of the inflection test inputs, one word at a time and then glued
  // together at the underscores by `ScanAtUnderscore`.

  lemma ScanSome() ensures Scan("some", true) == "Some" { }
  lemma ScanHtml() ensures Scan("html", true) == "Html" { }
  lemma ScanClass() ensures Scan("class", true) == "Class" { }
  lemma ScanName() ensures Scan("name", true) == "Name" { }
  lemma ScanIpv6() ensures Scan("ipv6", true) == "Ipv6" { }

  lemma WordScans()
    ensures Scan("some", true) == "Some"
    ensures Scan("html", true) == "Html"
    ensures Scan("class", true) == "Class"
    ensures Scan("name", true) == "Name"
    ensures Scan("ipv6", true) == "Ipv6"
  {
    ScanSome();
    ScanHtml();
    ScanClass();
    ScanName();
    ScanIpv6();
  }

  lemma ExampleSplits()
    ensures "html_class" == "html" + "_" + "class"
    ensures "ipv6_class" == "ipv6" + "_" + "class"
    ensures "class_name" == "class" + "_" + "name"
    ensures "some_html_class" == "some" + "_" + "html_class"
    ensures "some_class_name" == "some" + "_" + "class_name"
    ensures "Html" + "Class" == "HtmlClass"
    ensures "Ipv6" + "Class" == "Ipv6Class"
    ensures "Class" + "Name" == "ClassName"
    ensures "Some" + "HtmlClass" == "SomeHtmlClass"
    ensures "Some" + "ClassName" == "SomeClassName"
  {
  }

  lemma ScanHtmlClass()
    ensures Scan("html_class", true) == "HtmlClass"
  {
    ExampleSplits();
    WordScans();
    ScanAtUnderscore("html", "class", true);
  }

  lemma ScanIpv6Class()
    ensures Scan("ipv6_class", true) == "Ipv6Class"
  {
    ExampleSplits();
    WordScans();
    ScanAtUnderscore("ipv6", "class", true);
  }

  lemma ScanClassName()
    ensures Scan("class_name", true) == "ClassName"
  {
    ExampleSplits();
    WordScans();
    ScanAtUnderscore("class", "name", true);
  }

  lemma ScanSomeHtmlClass()
    ensures Scan("some_html_class", true) == "SomeHtmlClass"
  {
    ExampleSplits();
    WordScans();
    ScanHtmlClass();
    ScanAtUnderscore("some", "html_class", true);
  }

  lemma ScanSomeClassName()
    ensures Scan("some_class_name", true) == "SomeClassName"
  {
    ExampleSplits();
    WordScans();
    ScanClassName();
    ScanAtUnderscore("some", "class_name", true);
  }

  /** The conversions the inflection tests pin down. */
  lemma CamelcaseExamples()
    ensures Camelcase("some_class_name") == "SomeClassName"
    ensures Camelcase("html_class") == "HtmlClass"
    ensures Camelcase("some_html_class") == "SomeHtmlClass"
    ensures Camelcase("ipv6_class") == "Ipv6Class"
    ensures Camelcase("") == ""
  {
    ScanHtmlClass();
    ScanIpv6Class();
    ScanSomeClassName();
    ScanSomeHtmlClass();
  }
}
