/**
 * The file layer under the loader, reduced to what the aggregations see of
 * it: a directory is a map from file name to the table parsed from that
 * file. Reading a missing file yields no table instead of raising; a
 * failing write is swallowed, and the model treats it as touching no file.
 */
module DataStore {
  import opened Wrappers

  /**
   * `load_market_data`, `load_competitor_data`, `load_customer_data`: the
   * table stored under `fileName` in the raw directory, or no value when
   * the file does not exist.
   */
  function LoadData<T>(raw: map<string, T>, fileName: string): (r: Option<T>)
    ensures r.None? <==> fileName !in raw
    ensures r.Some? ==> r.value == raw[fileName]
  {
    if fileName in raw then Some(raw[fileName]) else None
  }

  /**
   * `save_processed_data`: the processed directory after writing `data`
   * under `fileName`. Whether the write succeeds is outside the model and
   * comes in as `writeSucceeds`; a failure is reported and swallowed, and
   * is taken to leave every file as it was.
   */
  function SaveProcessedData<T>(processed: map<string, T>, fileName: string, data: T, writeSucceeds: bool)
    : (r: map<string, T>)
    ensures r.Keys == if writeSucceeds then processed.Keys + {fileName} else processed.Keys
    ensures writeSucceeds ==> r[fileName] == data
    ensures forall n :: n in processed && n != fileName ==> r[n] == processed[n]
    ensures fileName in r && !writeSucceeds ==> r[fileName] == processed[fileName]
  {
    if writeSucceeds then processed[fileName := data] else processed
  }

  /**
   * Reading back a file that was written successfully yields what was
   * written: a property of the directory abstraction, since no loader
   * reads the processed directory.
   */
  lemma {:induction false} SaveThenLoad<T>(processed: map<string, T>, fileName: string, data: T)
    ensures LoadData(SaveProcessedData(processed, fileName, data, true), fileName) == Some(data)
  {
  }

  /** A failed write, taken to touch no file, changes what no later read sees. */
  lemma {:induction false} FailedSaveThenLoad<T>(processed: map<string, T>, fileName: string, data: T, other: string)
    ensures LoadData(SaveProcessedData(processed, fileName, data, false), other) == LoadData(processed, other)
  {
  }
}
