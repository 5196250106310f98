/**
  The field map of the plugin (init_field): semantic key to output field name.
  Ruby symbols are modelled by their names.
 */
module FieldMap {

  /** The field configuration hash literal the plugin starts from, in its order. */
  const FieldConfig: seq<(string, string)> := [
    ("date", "date"), ("time", "time"), ("time_usec", "time_usec"),
    ("gluster_log_level", "gluster_log_level"), ("source_file_name", "source_file_name"),
    ("source_line", "source_line"), ("function_name", "function_name"),
    ("component_name", "component_name"), ("message", "message"), ("hostname", "hostname")
  ]

  /** The ten semantic keys. */
  const SemanticKeys: set<string> := {
    "date", "time", "time_usec", "gluster_log_level", "source_file_name",
    "source_line", "function_name", "component_name", "message", "hostname"
  }

  /** A Ruby Hash never holds a key twice. */
  predicate DistinctKeys(field: seq<(string, string)>) {
    forall a, b :: 0 <= a < b < |field| ==> field[a].0 != field[b].0
  }

  /** Some entry of the configuration has key k. */
  predicate HasKey(field: seq<(string, string)>, k: string) {
    exists n :: 0 <= n < |field| && field[n].0 == k
  }

  /**
    init_field: copy every entry whose key is not empty, converting its value
    to a symbol; entries with an empty key are dropped.
   */
  method InitField(field: seq<(string, string)>) returns (f: map<string, string>)
    requires DistinctKeys(field)
    ensures forall k :: k in f <==> k != "" && HasKey(field, k)
    ensures forall n :: 0 <= n < |field| && field[n].0 != "" ==> field[n].0 in f && f[field[n].0] == field[n].1
  {
    f := map[];
    var i := 0;
    while i < |field|
      invariant 0 <= i <= |field|
      invariant forall k :: k in f <==> k != "" && HasKey(field[..i], k)
      invariant forall n :: 0 <= n < i && field[n].0 != "" ==> field[n].0 in f && f[field[n].0] == field[n].1
    {
      var (k, v) := field[i];
      if k != "" {
        f := f[k := v];
      }
      assert forall k' :: HasKey(field[..i + 1], k') <==> HasKey(field[..i], k') || k' == k by {
        forall k' ensures HasKey(field[..i + 1], k') <==> HasKey(field[..i], k') || k' == k {
          if HasKey(field[..i + 1], k') {
            var n :| 0 <= n < i + 1 && field[..i + 1][n].0 == k';
            if n < i { assert field[..i][n].0 == k'; }
          }
          if HasKey(field[..i], k') {
            var n :| 0 <= n < i && field[..i][n].0 == k';
            assert field[..i + 1][n].0 == k';
          }
          if k' == k { assert field[..i + 1][i].0 == k'; }
        }
      }
      i := i + 1;
    }
    assert field[..i] == field;
  }

  /** The field map the plugin ends up with: every semantic key names itself. */
  function DefaultFieldMap(): (f: map<string, string>)
    ensures f.Keys == SemanticKeys
    ensures forall k :: k in f ==> f[k] == k
  {
    map k | k in SemanticKeys :: k
  }

  lemma FieldConfigDistinct()
    ensures DistinctKeys(FieldConfig)
  {
    forall a, b | 0 <= a < b < |FieldConfig|
      ensures FieldConfig[a].0 != FieldConfig[b].0
    {
      var x, y := FieldConfig[a].0, FieldConfig[b].0;
      if |x| == |y| {
        assert x[0] != y[0];
      }
    }
  }

  /** Applied to the configuration literal, init_field keeps all ten entries and drops none. */
  lemma FieldConfigKeys(k: string)
    ensures k != "" && HasKey(FieldConfig, k) <==> k in SemanticKeys
  {
    if HasKey(FieldConfig, k) {
      var n :| 0 <= n < |FieldConfig| && FieldConfig[n].0 == k;
      assert n in {0, 1, 2, 3, 4, 5, 6, 7, 8, 9};
    }
    if k in SemanticKeys {
      if k == "date" { assert FieldConfig[0].0 == k; }
      else if k == "time" { assert FieldConfig[1].0 == k; }
      else if k == "time_usec" { assert FieldConfig[2].0 == k; }
      else if k == "gluster_log_level" { assert FieldConfig[3].0 == k; }
      else if k == "source_file_name" { assert FieldConfig[4].0 == k; }
      else if k == "source_line" { assert FieldConfig[5].0 == k; }
      else if k == "function_name" { assert FieldConfig[6].0 == k; }
      else if k == "component_name" { assert FieldConfig[7].0 == k; }
      else if k == "message" { assert FieldConfig[8].0 == k; }
      else { assert FieldConfig[9].0 == k; }
    }
  }

  /** Every entry of the configuration literal names its own key. */
  lemma FieldConfigNamesItself()
    ensures forall n :: 0 <= n < |FieldConfig| ==> FieldConfig[n].1 == FieldConfig[n].0
  {
  }

  /** What init_field makes of the configuration literal is the default field map. */
  lemma InitFieldOfConfig(f: map<string, string>)
    requires forall k :: k in f <==> k != "" && HasKey(FieldConfig, k)
    requires forall n :: 0 <= n < |FieldConfig| && FieldConfig[n].0 != "" ==> FieldConfig[n].0 in f && f[FieldConfig[n].0] == FieldConfig[n].1
    ensures f == DefaultFieldMap()
  {
    FieldConfigNamesItself();
    forall k ensures k in f <==> k in SemanticKeys {
      FieldConfigKeys(k);
    }
    forall k | k in f ensures f[k] == k {
      var n :| 0 <= n < |FieldConfig| && FieldConfig[n].0 == k;
    }
  }
}
