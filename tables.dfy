/** What the provider scripts write to disk besides the timing table: the
    per-case result texts and the answer workbook rows. */
module Tables {
  import opened Wrappers
  import opened Timing
  import opened JsonExtract

  /** One row of the results DataFrame: the case number and the cells read
      from the reply, in column order. */
  datatype ResultRow = ResultRow(caseNumber: int, values: seq<Value>)

  /** The files a run reads and writes: result texts by path, answer
      workbooks by path, timing workbooks by path. */
  datatype Disk = Disk(texts: map<string, string>, answerBooks: map<string, seq<ResultRow>>,
                       timeBooks: map<string, seq<Row>>)

  /** `load_or_initialize_execution_times(time_file_name)` */
  function LoadTiming(disk: Disk, name: string): seq<Row>
  {
    if name in disk.timeBooks then disk.timeBooks[name] else []
  }

  /** `k` is the first of `keys`, in read order, that `fields` lacks. */
  predicate FirstMissing<V>(fields: map<string, V>, keys: seq<string>, k: string)
  {
    exists j :: 0 <= j < |keys| && keys[j] == k && k !in fields
                && forall i :: 0 <= i < j ==> keys[i] in fields
  }

  /** `result_content[key]` for each key in order; the first missing key is
      the `KeyError`. */
  function ReadFields<V>(fields: map<string, V>, keys: seq<string>): (r: Result<seq<V>, string>)
    ensures r.Ok? <==> forall i :: 0 <= i < |keys| ==> keys[i] in fields
    ensures r.Ok? ==> |r.value| == |keys| && forall i :: 0 <= i < |keys| ==> r.value[i] == fields[keys[i]]
    ensures r.Err? ==> r.error in keys && r.error !in fields
    ensures r.Err? ==> FirstMissing(fields, keys, r.error)
    decreases |keys|
  {
    if keys == [] then Ok([])
    else if keys[0] !in fields then Err(keys[0])
    else match ReadFields(fields, keys[1..])
      case Err(k) =>
        var j :| 0 <= j < |keys[1..]| && keys[1..][j] == k && forall i :: 0 <= i < j ==> keys[1..][i] in fields;
        assert keys[j + 1] == k && forall i :: 1 <= i < j + 1 ==> keys[i] == keys[1..][i - 1];
        Err(k)
      case Ok(rest) =>
        assert forall i :: 1 <= i < |keys| ==> keys[i] == keys[1..][i - 1];
        Ok([fields[keys[0]]] + rest)
  }
}
