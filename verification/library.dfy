/** Behaviour of library code the core calls but whose bodies are not part of
    this model: the repository's `normalize_text`, difflib's
    `SequenceMatcher(None, a, b)` and `datetime.fromisoformat`. Each is a field
    of `Lib`, so every property below holds for ANY implementation of them. */
module Library {
  import opened Wrappers

  datatype Lib = Lib(
    /** the project's `normalize_text`, the canonical form of a header or key */
    normalizeText: string -> string,
    /** the number M of characters in the matching blocks SequenceMatcher finds */
    matchCount: (string, string) -> nat,
    /** `datetime.fromisoformat(s).year`; None when it raises ValueError */
    isoYear: string -> Option<int>)
  {
    /** The matching blocks of two strings are drawn from both of them. */
    ghost predicate Valid()
    {
      forall a, b :: matchCount(a, b) <= |a| && matchCount(a, b) <= |b|
    }

    /** `SequenceMatcher(None, a, b).ratio() >= 0.8` with ratio = 2*M/T,
        T = |a| + |b| (1.0 when T = 0), tested without floating point:
        2*M/T < 0.8 exactly when 5*M < 2*T. */
    predicate Similar(a: string, b: string)
    {
      !(5 * matchCount(a, b) < 2 * (|a| + |b|))
    }
  }

  /** Fuzzy matching only relates strings whose lengths are within a factor 3/2
      of each other. */
  lemma SimilarLengths(lib: Lib, a: string, b: string)
    requires lib.Valid() && lib.Similar(a, b)
    ensures 2 * |b| <= 3 * |a| && 2 * |a| <= 3 * |b|
  {
    assert lib.matchCount(a, b) <= |a| && lib.matchCount(a, b) <= |b|;
  }

  /** The empty string is similar to the empty string and to nothing else. */
  lemma SimilarToEmpty(lib: Lib, a: string, b: string)
    requires lib.Valid()
    requires a == [] || b == []
    ensures lib.Similar(a, b) <==> a == [] && b == []
  {
    assert lib.matchCount(a, b) <= |a| && lib.matchCount(a, b) <= |b|;
  }
}
