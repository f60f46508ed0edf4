/** InputFileCache: the input files of the analysis, by component key, filled
    by the sensor and read by the post job. */
module Cache {
  import opened Wrappers
  import opened Sonar

  /** The table after the puts of ps, in order: a later put under a key
      replaces an earlier one. */
  function Table(ps: seq<(string, InputFile)>): map<string, InputFile>
    decreases |ps|
  {
    if |ps| == 0 then map[]
    else Table(ps[..|ps| - 1])[ps[|ps| - 1].0 := ps[|ps| - 1].1]
  }

  /** The file of the last put under key, if any. */
  function LastPut(ps: seq<(string, InputFile)>, key: string): (r: Option<InputFile>)
    ensures r.None? <==> forall i | 0 <= i < |ps| :: ps[i].0 != key
    ensures r.Some? ==> exists i | 0 <= i < |ps| :: ps[i] == (key, r.value) && forall j | i < j < |ps| :: ps[j].0 != key
    decreases |ps|
  {
    if |ps| == 0 then None
    else if ps[|ps| - 1].0 == key then Some(ps[|ps| - 1].1)
    else
      var r := LastPut(ps[..|ps| - 1], key);
      assert forall i | 0 <= i < |ps| - 1 :: ps[..|ps| - 1][i] == ps[i];
      r
  }

  /** The table answers each key with the last put under it. */
  lemma {:induction false} TableLastPut(ps: seq<(string, InputFile)>, key: string)
    ensures key in Table(ps) <==> LastPut(ps, key).Some?
    ensures key in Table(ps) ==> Table(ps)[key] == LastPut(ps, key).value
    decreases |ps|
  {
    if |ps| > 0 {
      TableLastPut(ps[..|ps| - 1], key);
    }
  }

  class InputFileCache {
    var inputFileByKey: map<string, InputFile>
    /** The puts so far, in order. */
    ghost var puts: seq<(string, InputFile)>

    ghost predicate Valid()
      reads this
    {
      inputFileByKey == Table(puts)
    }

    constructor()
      ensures Valid() && puts == []
    {
      inputFileByKey := map[];
      puts := [];
    }

    /** put(componentKey, inputFile) */
    method Put(componentKey: string, inputFile: InputFile)
      requires Valid()
      modifies this
      ensures Valid() && puts == old(puts) + [(componentKey, inputFile)]
      ensures inputFileByKey == old(inputFileByKey)[componentKey := inputFile]
    {
      inputFileByKey := inputFileByKey[componentKey := inputFile];
      puts := puts + [(componentKey, inputFile)];
      assert puts[..|puts| - 1] == old(puts);
    }

    /** byKey(componentKey): the file put last under the key, or null when
        none was. */
    function ByKey(componentKey: string): (r: Option<InputFile>)
      requires Valid()
      reads this
      ensures r == LastPut(puts, componentKey)
    {
      TableLastPut(puts, componentKey);
      if componentKey in inputFileByKey then Some(inputFileByKey[componentKey]) else None
    }
  }
}
