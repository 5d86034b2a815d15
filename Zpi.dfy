/** The class-name remap lib/ivoxoar/util.py applies when loading old zpi archives. */
module Zpi {

  /** The classes that lived in __main__ before they moved to ivoxoar.space. */
  predicate IsLegacyClass(moduleName: string, name: string)
  {
    moduleName == "__main__" && (name == "Space" || name == "Axis")
  }

  /**
   * _pickle_translate(module, name): a legacy (module, name) pair moves to
   * ivoxoar.space under the same name; every other pair is left alone.
   */
  function PickleTranslate(moduleName: string, name: string): (r: (string, string))
    ensures r.1 == name
    ensures r != (moduleName, name) <==> IsLegacyClass(moduleName, name)
    ensures IsLegacyClass(moduleName, name) ==> r.0 == "ivoxoar.space"
  {
    if moduleName == "__main__" && name in ["Space", "Axis"] then ("ivoxoar.space", name)
    else (moduleName, name)
  }

  /** Nothing is remapped twice: translating a translated pair changes nothing. */
  lemma PickleTranslateIdempotent(moduleName: string, name: string)
    ensures var (m, n) := PickleTranslate(moduleName, name);
      PickleTranslate(m, n) == (m, n)
  {
    var (m, n) := PickleTranslate(moduleName, name);
    assert !IsLegacyClass(m, n) by {
      if IsLegacyClass(moduleName, name) {
        assert m == "ivoxoar.space" != "__main__";
      }
    }
  }
}
