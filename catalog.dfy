/** The defect catalog: the six defect identifiers in the order the
    pipeline tries them, their definitions, and the subclass name the
    ambiguity template embeds. */
module Catalog {
  import opened Text

  /** `defect_types`: the order in which detection is attempted. */
  const DefectTypes: seq<string> :=
    ["lexical_ambiguity", "syntactic_ambiguity", "semantic_ambiguity", "pragmatic_ambiguity", "vagueness", "incompleteness"]

  /** The identifiers that select the ambiguity template. */
  const AmbiguityTypes: seq<string> :=
    ["lexical_ambiguity", "syntactic_ambiguity", "semantic_ambiguity", "pragmatic_ambiguity", "vagueness"]

  /** The identifier that selects the incompleteness template. */
  const Incompleteness: string := "incompleteness"

  /** `definitions` */
  const Definitions: map<string, string> :=
    map[
      "lexical_ambiguity" := LexicalDefinition,
      "syntactic_ambiguity" := SyntacticDefinition,
      "semantic_ambiguity" := SemanticDefinition,
      "pragmatic_ambiguity" := PragmaticDefinition,
      "vagueness" := VaguenessDefinition,
      "incompleteness" := IncompletenessDefinition
    ]

  const LexicalDefinition: string :=
    "Lexical ambiguity occurs when a word has multiple meanings, making its interpretation dependent on the context. It can arise in two forms: (1) when a word has unrelated meanings despite sharing the same spelling and pronunciation, it is called homonym (e.g.,bank as a financial institution vs. bank as the side of a river). These meanings originate from different etymology root (2) when a word has related meanings that stem from a single etymology, it is referred to as Polysemy (e.g.,green referring to the color and to something environmentally friendly)"

  const SyntacticDefinition: string :=
    "Syntactic ambiguity occurs when a given sequence of words can be given more than one grammatical structure, and each has a different meaning. In the terminology of compiler construction, syntactic ambiguity occurs when a sentence has more than one parse."

  const SemanticDefinition: string :=
    "Semantic ambiguity occurs when a sentence has more than one way of reading it within its context, although it contains no lexical or syntactic ambiguity. Semantic ambiguity can be viewed as ambiguity with respect to the logical form, usually expressed in predicate logic, of a sentence."

  const PragmaticDefinition: string :=
    "Pragmatic ambiguity occurs when a sentence has several meanings in the context in which it is uttered. The context comprises the language context, i.e., the sentences uttered before and after, and the context beyond language, i.e., the situation, the background knowledge, and expectations of the speaker or hearer and the writer or reader."

  const VaguenessDefinition: string :=
    " A statement is considered vague if it admits borderline cases. A requirement is vague if it is not clear how to measure whether the requirement is fulfilled or not."

  const IncompletenessDefinition: string :=
    "Missing information and lack of details regarding different parts of the feature request."

  /** The fallback of the definition lookup. */
  const NoDefinition: string := "No definition available for this defect type."

  /** `definitions.get(defect_type.lower(), fallback)`: a case-insensitive
      lookup with a fixed fallback. */
  function DefinitionFor(defectType: string): string {
    if Lower(defectType) in Definitions then Definitions[Lower(defectType)] else NoDefinition
  }

  /** The lookup finds the catalog definition of every identifier, in any
      case, and the fallback exactly for the others. */
  lemma DefinitionForSpec(defectType: string)
    ensures DefinitionFor(defectType) == NoDefinition <==> Lower(defectType) !in DefectTypes
    ensures Lower(defectType) in DefectTypes ==> DefinitionFor(defectType) == Definitions[Lower(defectType)]
  {
    DefinitionsShape();
  }

  /** `defect_type.replace("_", " ").title()` */
  function Subclass(defectType: string): string {
    Title(ReplaceChar(defectType, '_', ' '))
  }

  /** The identifiers are six distinct lower-case strings: the five
      ambiguity ones followed by incompleteness. */
  lemma CatalogShape()
    ensures |DefectTypes| == 6 && DefectTypes == AmbiguityTypes + [Incompleteness]
    ensures forall i, j :: 0 <= i < j < |DefectTypes| ==> DefectTypes[i] != DefectTypes[j]
    ensures forall t :: t in DefectTypes ==> Lower(t) == t
  {
    CatalogLowerCase();
  }

  /** The identifiers are written in lower case. */
  lemma CatalogLowerCase()
    ensures forall t :: t in DefectTypes ==> Lower(t) == t
  {
    forall i | 0 <= i < |DefectTypes| ensures Lower(DefectTypes[i]) == DefectTypes[i] {
      LowerUnchanged(DefectTypes[i]);
    }
  }

  /** Each identifier has exactly one definition, and none of them is the
      fallback text. */
  lemma DefinitionsShape()
    ensures Definitions.Keys == set t | t in DefectTypes
    ensures NoDefinition !in Definitions.Values
  {
  }

  /** The definition looked up does not depend on the case of the
      identifier. */
  lemma DefinitionIgnoresCase(defectType: string)
    ensures DefinitionFor(defectType) == DefinitionFor(Lower(defectType))
  {
    LowerIdempotent(defectType);
  }

  /** The subclass name does not depend on the case of the identifier. */
  lemma SubclassIgnoresCase(defectType: string)
    ensures Subclass(defectType) == Subclass(Lower(defectType))
  {
  }

  /** The title-cased subclass name of each ambiguity identifier. */
  function KnownSubclass(t: string): string
    requires t in AmbiguityTypes
  {
    if t == "lexical_ambiguity" then "Lexical Ambiguity"
    else if t == "syntactic_ambiguity" then "Syntactic Ambiguity"
    else if t == "semantic_ambiguity" then "Semantic Ambiguity"
    else if t == "pragmatic_ambiguity" then "Pragmatic Ambiguity"
    else "Vagueness"
  }

  /** The subclass name of each ambiguity identifier, whatever its case. */
  lemma {:induction false} AmbiguitySubclass(defectType: string)
    requires Lower(defectType) in AmbiguityTypes
    ensures Subclass(defectType) == KnownSubclass(Lower(defectType))
  {
    SubclassIgnoresCase(defectType);
    var t := Lower(defectType);
    if t == "lexical_ambiguity" {
      LexicalSubclass(t);
    } else if t == "syntactic_ambiguity" {
      SyntacticSubclass(t);
    } else if t == "semantic_ambiguity" {
      SemanticSubclass(t);
    } else if t == "pragmatic_ambiguity" {
      PragmaticSubclass(t);
    } else if t == "vagueness" {
      VaguenessSubclass(t);
    }
  }

  /** A non-empty word of lower-case ASCII letters. */
  predicate IsLowerWord(w: string) {
    w != [] && forall i :: 0 <= i < |w| ==> 'a' <= w[i] <= 'z'
  }

  /** A word with its first character upper-cased. */
  function Capitalized(w: string): string
    requires w != []
  {
    [UpperChar(w[0])] + w[1..]
  }

  /** A lower-case word title-cases to itself capitalised. */
  lemma TitleOfWord(a: string)
    requires IsLowerWord(a)
    ensures Title(a) == Capitalized(a)
  {
    forall i | 0 <= i < |a| ensures Title(a)[i] == Capitalized(a)[i] {
      if i > 0 {
        assert IsCased(a[i - 1]);
      }
    }
  }

  /** Title-casing two lower-case words joined by a space capitalises
      each word and keeps the space. */
  lemma TitleOfWords(a: string, b: string)
    requires IsLowerWord(a) && IsLowerWord(b)
    ensures Title(a + " " + b) == Capitalized(a) + " " + Capitalized(b)
  {
    var s := a + " " + b;
    var r := Capitalized(a) + " " + Capitalized(b);
    assert |s| == |r|;
    forall i | 0 <= i < |s| ensures Title(s)[i] == r[i] {
      if i < |a| {
        assert s[i] == a[i] && r[i] == Capitalized(a)[i];
        if i > 0 {
          assert s[i - 1] == a[i - 1] && IsCased(a[i - 1]);
        }
      } else if i == |a| {
        assert s[i - 1] == a[|a| - 1] && IsCased(a[|a| - 1]);
      } else {
        var j := i - |a| - 1;
        assert s[i] == b[j] && r[i] == Capitalized(b)[j];
        if j > 0 {
          assert s[i - 1] == b[j - 1] && IsCased(b[j - 1]);
        }
      }
    }
  }

  /** An identifier of one lower-case word, or of two joined by an
      underscore, has as subclass name its words capitalised and joined by
      a space. */
  lemma SubclassOfWords(a: string, b: string)
    requires IsLowerWord(a) && IsLowerWord(b)
    ensures Subclass(a) == Capitalized(a)
    ensures Subclass(a + "_" + b) == Capitalized(a) + " " + Capitalized(b)
  {
    assert ReplaceChar(a, '_', ' ') == a;
    var s := a + "_" + b;
    assert forall i :: 0 <= i < |a| ==> s[i] == a[i];
    assert forall i :: 0 <= i < |b| ==> s[|a| + 1 + i] == b[i];
    assert ReplaceChar(s, '_', ' ') == a + " " + b;
    TitleOfWord(a);
    TitleOfWords(a, b);
  }

  // The four two-word identifiers: the capitalised words, then the
  // subclass name built from them.

  lemma LexicalName()
    ensures Capitalized("lexical") + " " + Capitalized("ambiguity") == "Lexical Ambiguity"
  {
  }

  lemma LexicalSubclass(t: string)
    requires t == "lexical_ambiguity"
    ensures Subclass(t) == "Lexical Ambiguity"
  {
    assert t == "lexical" + "_" + "ambiguity";
    SubclassOfWords("lexical", "ambiguity");
    LexicalName();
  }

  lemma SyntacticName()
    ensures Capitalized("syntactic") + " " + Capitalized("ambiguity") == "Syntactic Ambiguity"
  {
  }

  lemma SyntacticSubclass(t: string)
    requires t == "syntactic_ambiguity"
    ensures Subclass(t) == "Syntactic Ambiguity"
  {
    assert t == "syntactic" + "_" + "ambiguity";
    SubclassOfWords("syntactic", "ambiguity");
    SyntacticName();
  }

  lemma SemanticName()
    ensures Capitalized("semantic") + " " + Capitalized("ambiguity") == "Semantic Ambiguity"
  {
  }

  lemma SemanticSubclass(t: string)
    requires t == "semantic_ambiguity"
    ensures Subclass(t) == "Semantic Ambiguity"
  {
    assert t == "semantic" + "_" + "ambiguity";
    SubclassOfWords("semantic", "ambiguity");
    SemanticName();
  }

  lemma PragmaticName()
    ensures Capitalized("pragmatic") + " " + Capitalized("ambiguity") == "Pragmatic Ambiguity"
  {
  }

  lemma PragmaticSubclass(t: string)
    requires t == "pragmatic_ambiguity"
    ensures Subclass(t) == "Pragmatic Ambiguity"
  {
    assert t == "pragmatic" + "_" + "ambiguity";
    SubclassOfWords("pragmatic", "ambiguity");
    PragmaticName();
  }

  lemma VaguenessSubclass(t: string)
    requires t == "vagueness"
    ensures Subclass(t) == "Vagueness"
  {
    assert IsLowerWord(t);
    SubclassOfWords(t, t);
  }
}
