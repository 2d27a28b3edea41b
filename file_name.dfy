/**
 * The extension that `extraerTexto` dispatches on: the file name split at
 * its dots, the last piece, in lower case.
 */
module FileName {

  /** `s.split('.')`: the pieces between the dots, from left to right. */
  function Split(s: string): (parts: seq<string>)
    ensures |parts| >= 1
    ensures forall i | 0 <= i < |parts| :: '.' !in parts[i]
    decreases |s|
  {
    if s == [] then [[]]
    else
      var init := Split(s[..|s| - 1]);
      var c := s[|s| - 1];
      if c == '.' then init + [[]]
      else init[..|init| - 1] + [init[|init| - 1] + [c]]
  }

  /** The pieces glued back together with dots (`parts.join('.')`). */
  function Join(parts: seq<string>): string
    requires |parts| >= 1
  {
    if |parts| == 1 then parts[0]
    else Join(parts[..|parts| - 1]) + "." + parts[|parts| - 1]
  }

  /** `Array.prototype.pop` on the pieces: `split` never yields an empty array. */
  function Last(parts: seq<string>): string
    requires |parts| >= 1
  {
    parts[|parts| - 1]
  }

  /** `String.prototype.toLowerCase` on one character, for the Latin capitals A-Z. */
  function LowerChar(c: char): char
  {
    if 'A' <= c <= 'Z' then (c as int - 'A' as int + 'a' as int) as char else c
  }

  function ToLower(s: string): (r: string)
    ensures |r| == |s|
  {
    seq(|s|, i requires 0 <= i < |s| => LowerChar(s[i]))
  }

  function UpperChar(c: char): char
  {
    if 'a' <= c <= 'z' then (c as int - 'a' as int + 'A' as int) as char else c
  }

  function ToUpper(s: string): (r: string)
    ensures |r| == |s|
  {
    seq(|s|, i requires 0 <= i < |s| => UpperChar(s[i]))
  }

  /** The extension of a file name, as line 11 of the handler computes it. */
  function Extension(name: string): string
  {
    ToLower(Last(Split(name)))
  }

  /** A dot after the pieces adds an empty piece. */
  lemma JoinEmptyPiece(parts: seq<string>)
    requires |parts| >= 1
    ensures Join(parts + [[]]) == Join(parts) + "."
  {
    var q := parts + [[]];
    assert q[..|q| - 1] == parts;
  }

  /** Any other character after the pieces extends the last one. */
  lemma JoinExtendLast(parts: seq<string>, c: char)
    requires |parts| >= 1
    ensures var k := |parts| - 1;
      Join(parts[..k] + [parts[k] + [c]]) == Join(parts) + [c]
  {
    var k := |parts| - 1;
    var q := parts[..k] + [parts[k] + [c]];
    if k > 0 {
      assert q[..k] == parts[..k];
      assert Join(q) == Join(parts[..k]) + "." + (parts[k] + [c]);
      assert Join(parts) == Join(parts[..k]) + "." + parts[k];
    }
  }

  /** Splitting at the dots and joining again gives back the name. */
  lemma {:induction false} JoinSplit(s: string)
    ensures Join(Split(s)) == s
    decreases |s|
  {
    if s != [] {
      var m := s[..|s| - 1];
      var c := s[|s| - 1];
      var init := Split(m);
      JoinSplit(m);
      assert s == m + [c];
      if c == '.' {
        assert Split(s) == init + [[]];
        JoinEmptyPiece(init);
      } else {
        assert Split(s) == init[..|init| - 1] + [init[|init| - 1] + [c]];
        JoinExtendLast(init, c);
      }
    }
  }

  /**
   * The piece `pop` returns is the longest dot-free suffix of the name: it is
   * the whole name, or it is preceded by the last dot.
   */
  lemma {:induction false} LastIsAfterLastDot(name: string)
    ensures var e := Last(Split(name));
      && |e| <= |name|
      && name[|name| - |e|..] == e
      && '.' !in e
      && (|e| == |name| || name[|name| - |e| - 1] == '.')
    decreases |name|
  {
    if name != [] {
      var m := name[..|name| - 1];
      LastIsAfterLastDot(m);
      var e' := Last(Split(m));
      var c := name[|name| - 1];
      if c != '.' {
        var e := Last(Split(name));
        assert e == e' + [c];
        assert name == m + [c];
        assert name[|name| - |e|..] == m[|m| - |e'|..] + [c];
      }
    }
  }

  /** A name without a dot is its own extension, lower-cased. */
  lemma NoDotWholeName(name: string)
    requires '.' !in name
    ensures Extension(name) == ToLower(name)
  {
    LastIsAfterLastDot(name);
    assert name[|name| - |Last(Split(name))|..] == name;
  }

  /** A name that ends in a dot has the empty extension. */
  lemma TrailingDotEmpty(name: string)
    requires |name| > 0 && name[|name| - 1] == '.'
    ensures Extension(name) == ""
  {
    LastIsAfterLastDot(name);
  }

  /** A name made of a stem, a dot and a dot-free extension has that extension. */
  lemma ExtensionAfterLastDot(stem: string, ext: string)
    requires '.' !in ext
    ensures Extension(stem + "." + ext) == ToLower(ext)
  {
    var name := stem + "." + ext;
    LastIsAfterLastDot(name);
    var e := Last(Split(name));
    assert name[|name| - |ext| - 1] == '.';
    assert forall j | |name| - |e| <= j < |name| :: name[j] == e[j - (|name| - |e|)] != '.';
    assert forall j | |name| - |ext| <= j < |name| :: name[j] == ext[j - (|name| - |ext|)] != '.';
    assert e == name[|name| - |ext|..] == ext;
  }

  /** Lower-casing a name first and then splitting it splits at the same dots. */
  lemma {:induction false} LastOfLowered(s: string)
    ensures Last(Split(ToLower(s))) == ToLower(Last(Split(s)))
    decreases |s|
  {
    if s != [] {
      var m := s[..|s| - 1];
      LastOfLowered(m);
      var ls := ToLower(s);
      assert ls[..|ls| - 1] == ToLower(m);
      var c := s[|s| - 1];
      assert ls[|ls| - 1] == LowerChar(c);
      if c != '.' {
        assert ToLower(Last(Split(m)) + [c]) == ToLower(Last(Split(m))) + [LowerChar(c)];
      }
    }
  }

  /** The extension depends only on the lower-cased name: `A.DOCX` and `a.docx` dispatch alike. */
  lemma ExtensionIgnoresCase(n1: string, n2: string)
    requires ToLower(n1) == ToLower(n2)
    ensures Extension(n1) == Extension(n2)
  {
    var e1 := Last(Split(n1));
    var e2 := Last(Split(n2));
    LastOfLowered(n1);
    LastOfLowered(n2);
    assert ToLower(ToLower(e1)) == ToLower(e1);
    assert ToLower(ToLower(e2)) == ToLower(e2);
  }

  /** In particular upper-casing a name does not change its extension. */
  lemma ExtensionOfUpper(name: string)
    ensures Extension(ToUpper(name)) == Extension(name)
  {
    assert ToLower(ToUpper(name)) == ToLower(name);
    ExtensionIgnoresCase(ToUpper(name), name);
  }

  lemma ExtensionOfDocxName()
    ensures Extension("ppo.docx") == "docx"
  {
    ExtensionAfterLastDot("ppo", "docx");
    assert "ppo" + "." + "docx" == "ppo.docx";
    assert ToLower("docx") == "docx";
  }

  lemma ExtensionOfUpperCaseName()
    ensures Extension("A.DOCX") == "docx"
  {
    ExtensionAfterLastDot("A", "DOCX");
    assert "A" + "." + "DOCX" == "A.DOCX";
    assert ToLower("DOCX") == "docx";
  }

  lemma ExtensionOfSeveralDots()
    ensures Extension("informe.final.PDF") == "pdf"
  {
    ExtensionAfterLastDot("informe.final", "PDF");
    assert "informe.final" + "." + "PDF" == "informe.final.PDF";
    assert ToLower("PDF") == "pdf";
  }

  lemma ExtensionOfNameWithoutDot()
    ensures Extension("rtf") == "rtf"
  {
    NoDotWholeName("rtf");
    assert ToLower("rtf") == "rtf";
  }

  lemma ExtensionOfTrailingDot()
    ensures Extension("raro.") == ""
  {
    TrailingDotEmpty("raro.");
  }
}
