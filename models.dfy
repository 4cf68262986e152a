/**
 * The `Country` model (app/Models/Country.php): its `saving` hook keeps `name_normalized` in step
 * with `name`, and the factory's precomputed key is replaced when a test overrides the name.
 */
module Models {
  import opened Wrappers
  import opened Text
  import opened Records

  class Country {
    var name: string
    var nameNormalized: string
    /** The `name` as last read from or written to the database; `None` for a model never saved. */
    var storedName: Option<string>

    /** `isDirty('name')`: the name differs from the stored one, or the model was never saved. */
    predicate NameIsDirty()
      reads this
    {
      storedName != Some(name)
    }

    /** The key is the one the name derives. */
    predicate Normalized()
      reads this
    {
      nameNormalized == NameKey(name)
    }

    /** A new, unsaved model filled with the given attributes. */
    constructor (name: string, nameNormalized: string)
      ensures this.name == name && this.nameNormalized == nameNormalized && storedName == None
      ensures NameIsDirty()
    {
      this.name := name;
      this.nameNormalized := nameNormalized;
      storedName := None;
    }

    /** The `saving` hook: a dirty name re-derives the key, a clean one leaves it alone. */
    method Saving()
      modifies this`nameNormalized
      ensures old(NameIsDirty()) ==> Normalized()
      ensures !old(NameIsDirty()) ==> nameNormalized == old(nameNormalized)
    {
      if NameIsDirty() {
        nameNormalized := NameKey(name);
      }
    }

    /**
     * `save()`: the hook runs, the row is written and the name is clean afterwards. A model
     * whose key matched its name, or whose name changed, leaves with a matching key.
     */
    method Save()
      modifies this
      ensures name == old(name) && storedName == Some(name)
      ensures old(NameIsDirty()) ==> Normalized()
      ensures !old(NameIsDirty()) ==> nameNormalized == old(nameNormalized)
      ensures old(Normalized()) ==> Normalized()
    {
      Saving();
      storedName := Some(name);
    }
  }

  /**
   * `Country::factory()->create(['name' => name])`: the factory's definition derives the key from
   * the fake name it drew, the override replaces the name, and saving replaces the key.
   */
  method CreateFromFactory(fakeName: string, name: string) returns (c: Country)
    ensures c.name == name && c.nameNormalized == NameKey(name) && !c.NameIsDirty()
  {
    c := new Country(name, NameKey(fakeName));
    c.Save();
  }

  /** Names in capitals become lower-case keys. */
  lemma UpperCaseNameExample()
    ensures NameKey("NIGERIA") == "nigeria"
  {
    var ws := ["NIGERIA"];
    assert Spaced(ws) == "NIGERIA";
    assert Hyphenated(ws) == "nigeria";
    assert IsWord(ws[0]);
    SlugOfSpacedWords(ws);
    SlugIgnoresCase(Spaced(ws));
  }

  /** An apostrophe is dropped without leaving a hyphen. */
  lemma ApostropheNameExample()
    ensures NameKey("cote d'ivoire") == "cote-divoire"
  {
    var ws := ["cote", "divoire"];
    assert "cote d'ivoire" == "cote d" + ['\''] + "ivoire";
    assert "cote d" + "ivoire" == Spaced(ws);
    assert Hyphenated(ws) == "cote-divoire";
    assert IsWord(ws[0]) && IsWord(ws[1]);
    SlugDropsPunctuation("cote d", '\'', "ivoire");
    SlugOfSpacedWords(ws);
    SlugIgnoresCase("cote d'ivoire");
  }
}
