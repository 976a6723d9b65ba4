/** `get_env_vars` of helper_functions.py: the variables read from the `.env`
    file, narrowed to those whose name carries a site prefix.

    The read itself (`dotenv_values()`) is an input map. Its values are kept
    abstract (`V`): the reader yields a string, or None for a name written
    without `=`. */
module EnvVars {
  import opened Results
  import opened PyText

  /** The key test of the comprehension: no prefix, or `key.startswith(prefix + '_')`. */
  predicate Selected(key: string, prefix: Option<string>) {
    prefix.None? || StartsWith(key, prefix.value + "_")
  }

  /** A key passes a prefix exactly when it is longer than the prefix, begins
      with it, and has `_` right after it. */
  lemma SelectedIff(key: string, prefix: string)
    ensures Selected(key, Some(prefix))
      <==> |key| > |prefix| && key[..|prefix|] == prefix && key[|prefix|] == '_'
  {
    var p := prefix + "_";
    if |key| > |prefix| && key[..|prefix|] == prefix && key[|prefix|] == '_' {
      assert key[..|p|] == p;
    }
    if StartsWith(key, p) {
      assert key[..|prefix|] == key[..|p|][..|prefix|] == p[..|prefix|] == prefix;
      assert key[|prefix|] == key[..|p|][|prefix|] == p[|prefix|] == '_';
    }
  }

  /** `get_env_vars(key_prefix)` applied to the values read from `.env`. */
  function GetEnvVars<V>(values: map<string, V>, prefix: Option<string>): (r: map<string, V>)
    ensures r.Keys <= values.Keys
    ensures forall key :: key in r ==> r[key] == values[key]
    ensures forall key :: key in values ==> (key in r <==> Selected(key, prefix))
    ensures prefix.Some? ==> forall key :: key in r ==> |key| > |prefix.value| && key[|prefix.value|] == '_'
  {
    map key | key in values && Selected(key, prefix) :: values[key]
  }

  /** Without a prefix nothing is dropped. */
  lemma NoPrefixKeepsAll<V>(values: map<string, V>)
    ensures GetEnvVars(values, None) == values
  {
  }

  /** Filtering again with the same prefix changes nothing. */
  lemma GetEnvVarsIdempotent<V>(values: map<string, V>, prefix: Option<string>)
    ensures GetEnvVars(GetEnvVars(values, prefix), prefix) == GetEnvVars(values, prefix)
  {
  }

  /** The keys the USAA scraper reads are selected by its prefix `usaa`. */
  lemma UsaaCredentialsSelected()
    ensures Selected("usaa_member_id", Some("usaa"))
    ensures Selected("usaa_password", Some("usaa"))
    ensures Selected("usaa_pin", Some("usaa"))
    ensures !Selected("usaa", Some("usaa"))
    ensures !Selected("usaamember_id", Some("usaa"))
  {
    assert "usaa_member_id"[..5] == "usaa_";
    assert "usaa_password"[..5] == "usaa_";
    assert "usaa_pin"[..5] == "usaa_";
    assert "usaamember_id"[..5][4] == 'm';
  }
}
