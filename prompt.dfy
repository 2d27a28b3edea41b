/**
 * The prompt of the handler: a template literal whose nine `${...}` holes
 * take the five reference texts, the text of the project under evaluation
 * and the evaluator's three scores.
 *
 * A template literal is the alternation fragment, value, fragment, ...,
 * fragment; each value is inserted as it is, with no escaping and no
 * truncation.
 */
module Prompt {
  /** Interleaves `frags` with `vals`: `frags[0] + vals[0] + frags[1] + ... + frags[|vals|]`. */
  function Fill(frags: seq<string>, vals: seq<string>): (r: string)
    requires |frags| == |vals| + 1
    decreases |vals|
  {
    if vals == [] then frags[0]
    else frags[0] + vals[0] + Fill(frags[1..], vals[1..])
  }

  function Sum(lengths: seq<nat>): nat
  {
    if lengths == [] then 0 else lengths[0] + Sum(lengths[1..])
  }

  function Lengths(s: seq<string>): (ls: seq<nat>)
    ensures |ls| == |s|
  {
    seq(|s|, i requires 0 <= i < |s| => |s[i]|)
  }

  /** Where the `i`-th value starts in the filled text. */
  function Offset(frags: seq<string>, vals: seq<string>, i: nat): nat
    requires |frags| == |vals| + 1 && i < |vals|
    decreases i
  {
    if i == 0 then |frags[0]|
    else |frags[0]| + |vals[0]| + Offset(frags[1..], vals[1..], i - 1)
  }

  /** The filled text is exactly as long as its fragments and values together. */
  lemma {:induction false} FillLength(frags: seq<string>, vals: seq<string>)
    requires |frags| == |vals| + 1
    ensures |Fill(frags, vals)| == Sum(Lengths(frags)) + Sum(Lengths(vals))
    decreases |vals|
  {
    if vals != [] {
      FillLength(frags[1..], vals[1..]);
      assert Lengths(frags)[1..] == Lengths(frags[1..]);
      assert Lengths(vals)[1..] == Lengths(vals[1..]);
    }
  }

  /** Each value sits whole at its offset, right after its fragment. */
  lemma {:induction false} FillPlacesValue(frags: seq<string>, vals: seq<string>, i: nat)
    requires |frags| == |vals| + 1 && i < |vals|
    ensures var r := Fill(frags, vals); var o := Offset(frags, vals, i);
      |frags[i]| <= o && o + |vals[i]| <= |r| &&
      r[o - |frags[i]|..o] == frags[i] && r[o..o + |vals[i]|] == vals[i]
    decreases i
  {
    var head := frags[0] + vals[0];
    var rest := Fill(frags[1..], vals[1..]);
    assert Fill(frags, vals) == head + rest;
    if i == 0 {
      SliceInLeft(head, rest, 0, |frags[0]|);
      SliceInLeft(head, rest, |frags[0]|, |head|);
      assert head[..|frags[0]|] == frags[0];
      assert head[|frags[0]|..] == vals[0];
    } else {
      FillPlacesValue(frags[1..], vals[1..], i - 1);
      var o := Offset(frags[1..], vals[1..], i - 1);
      SliceInRight(head, rest, |head| + o - |frags[i]|, |head| + o);
      SliceInRight(head, rest, |head| + o, |head| + o + |vals[i]|);
    }
  }

  /** A slice that lies within the left operand of a concatenation. */
  lemma SliceInLeft(a: string, b: string, lo: nat, hi: nat)
    requires lo <= hi <= |a|
    ensures (a + b)[lo..hi] == a[lo..hi]
  {
  }

  /** A slice that lies within the right operand of a concatenation. */
  lemma SliceInRight(a: string, b: string, lo: nat, hi: nat)
    requires |a| <= lo <= hi <= |a| + |b|
    ensures (a + b)[lo..hi] == b[lo - |a|..hi - |a|]
  {
  }

  /** Values come in order: each starts after the previous one ends. */
  lemma {:induction false} OffsetsIncrease(frags: seq<string>, vals: seq<string>, i: nat)
    requires |frags| == |vals| + 1 && i + 1 < |vals|
    ensures Offset(frags, vals, i + 1) == Offset(frags, vals, i) + |vals[i]| + |frags[i + 1]|
    decreases i
  {
    if i > 0 {
      OffsetsIncrease(frags[1..], vals[1..], i - 1);
    }
  }

  /**
   * With the fragments fixed, the filled text determines values of given
   * lengths: no two different inputs give the same prompt.
   */
  lemma FillInjective(frags: seq<string>, vals1: seq<string>, vals2: seq<string>)
    requires |frags| == |vals1| + 1 && |vals1| == |vals2|
    requires forall i | 0 <= i < |vals1| :: |vals1[i]| == |vals2[i]|
    requires Fill(frags, vals1) == Fill(frags, vals2)
    ensures vals1 == vals2
  {
    forall i | 0 <= i < |vals1| ensures vals1[i] == vals2[i] {
      FillPlacesValue(frags, vals1, i);
      FillPlacesValue(frags, vals2, i);
      OffsetsAgree(frags, vals1, vals2, i);
    }
  }

  /** Values of the same lengths are placed at the same offsets. */
  lemma {:induction false} OffsetsAgree(frags: seq<string>, vals1: seq<string>, vals2: seq<string>, i: nat)
    requires |frags| == |vals1| + 1 && |vals1| == |vals2| && i < |vals1|
    requires forall j | 0 <= j < |vals1| :: |vals1[j]| == |vals2[j]|
    ensures Offset(frags, vals1, i) == Offset(frags, vals2, i)
    decreases i
  {
    if i > 0 {
      OffsetsAgree(frags[1..], vals1[1..], vals2[1..], i - 1);
    }
  }

  // ---------------------------------------------------------------------
  // The evaluation prompt.
  // ---------------------------------------------------------------------

  /** The literal text of the template around its nine holes; lines end in LF and keep the source's indentation. */
  const Opening: string := "\n        Eres un experto pedagógico de la Dirección de Educación No Formal del GCABA. \n        Tu tarea es evaluar el siguiente Proyecto Participativo Organizativo (PPO).\n\n        DOCUMENTOS DE REFERENCIA (Úsalos para comparar):\n        1. Instructivo: "
  const PlanillaLabel: string := "\n        2. Planilla de Evaluación: "
  const PlantillaLabel: string := "\n        3. Plantilla Oficial: "
  const ResolucionLabel: string := "\n        4. Resolución Curricular: "
  const MarcoLabel: string := "\n        5. Marco Pedagógico: "
  const ProjectLabel: string := "\n\n        PROYECTO A EVALUAR:\n        "
  const ClaridadLabel: string := "\n\n        CRITERIOS DEL EVALUADOR (Escala 1-10):\n        - Claridad de Objetivos: "
  const ViabilidadLabel: string := "\n        - Viabilidad: "
  const NormativoLabel: string := "\n        - Marco Normativo: "
  const Task: string := "\n\n        TAREA:\n        Genera un informe técnico estructurado en HTML. Incluye fortalezas, debilidades y sugerencias de mejora basadas estrictamente en la normativa comparada.\n        "

  /** The template's fragments in order. */
  const Fragments: seq<string> := [
    Opening, PlanillaLabel, PlantillaLabel, ResolucionLabel, MarcoLabel,
    ProjectLabel, ClaridadLabel, ViabilidadLabel, NormativoLabel, Task
  ]

  /** What fills the holes, in the order they appear. */
  datatype Inputs = Inputs(
    instructivo: string, planilla: string, plantilla: string, resolucion: string, marco: string,
    proyecto: string, claridad: string, viabilidad: string, normativo: string)

  function Values(x: Inputs): (vals: seq<string>)
    ensures |vals| == |Fragments| - 1
  {
    [x.instructivo, x.planilla, x.plantilla, x.resolucion, x.marco,
     x.proyecto, x.claridad, x.viabilidad, x.normativo]
  }

  /** The prompt sent to the model. */
  function Template(x: Inputs): string
  {
    Fill(Fragments, Values(x))
  }

  /** `p` holds the `i`-th input whole at its offset, right after the label that introduces it. */
  ghost predicate PlacesInput(p: string, x: Inputs, i: nat)
    requires i < |Values(x)|
  {
    var o := Offset(Fragments, Values(x), i);
    |Fragments[i]| <= o && o + |Values(x)[i]| <= |p| &&
    p[o - |Fragments[i]|..o] == Fragments[i] && p[o..o + |Values(x)[i]|] == Values(x)[i]
  }

  /** Every input appears whole in the prompt, at its own offset, right after its label. */
  lemma TemplatePlacesInputs(x: Inputs, i: nat)
    requires i < |Values(x)|
    ensures PlacesInput(Template(x), x, i)
  {
    FillPlacesValue(Fragments, Values(x), i);
  }

  /** Nothing is cut: the prompt is the fixed text plus every input in full. */
  lemma TemplateLength(x: Inputs)
    ensures |Template(x)| == Sum(Lengths(Fragments)) + Sum(Lengths(Values(x)))
  {
    FillLength(Fragments, Values(x));
  }

  /** Different inputs of the same lengths give different prompts. */
  lemma TemplateInjective(x: Inputs, y: Inputs)
    requires forall i | 0 <= i < |Values(x)| :: |Values(x)[i]| == |Values(y)[i]|
    requires Template(x) == Template(y)
    ensures x == y
  {
    FillInjective(Fragments, Values(x), Values(y));
    assert Values(x) == Values(y);
  }

  /** The prompt opens with the evaluator's role and the first label. */
  lemma TemplateOpening(x: Inputs)
    ensures Opening <= Template(x)
  {
    FillHead(Fragments, Values(x));
  }

  /** The prompt closes with the task. */
  lemma TemplateClosing(x: Inputs)
    ensures EndsWith(Template(x), Task)
  {
    FillTail(Fragments, Values(x));
    assert Fragments[|Values(x)|] == Task;
  }

  /** The filled text starts with the first fragment. */
  lemma FillHead(frags: seq<string>, vals: seq<string>)
    requires |frags| == |vals| + 1
    ensures frags[0] <= Fill(frags, vals)
  {
    if vals != [] {
      PrefixOfConcat(frags[0], vals[0], Fill(frags[1..], vals[1..]));
    }
  }

  /** The left operand of a concatenation is a prefix of it. */
  lemma PrefixOfConcat(a: string, b: string, c: string)
    ensures a <= a + b + c
  {
    assert (a + b + c)[..|a|] == a;
  }

  /** `s` is a suffix of `p`. */
  ghost predicate EndsWith(p: string, s: string) {
    |s| <= |p| && p[|p| - |s|..] == s
  }

  /** The filled text ends with the last fragment. */
  lemma {:induction false} FillTail(frags: seq<string>, vals: seq<string>)
    requires |frags| == |vals| + 1
    ensures EndsWith(Fill(frags, vals), frags[|vals|])
    decreases |vals|
  {
    if vals != [] {
      FillTail(frags[1..], vals[1..]);
      var rest := Fill(frags[1..], vals[1..]);
      var r := Fill(frags, vals);
      assert r == frags[0] + vals[0] + rest;
      assert r[|r| - |frags[|vals|]|..] == rest[|rest| - |frags[|vals|]|..];
    }
  }
}
