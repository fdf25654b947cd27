/** Result-folder and file names shared by the three provider scripts. */
module Naming {
  import opened Text

  const TemperatureTag: string := "_temp_"
  const TrialTag: string := "_try"
  const ResultSuffix: string := ".txt"

  /** The `_temp_..._try...` part `create_result_folder` appends to the base folder. */
  function FolderTail(temperature: string, trial: nat): string
  {
    TemperatureTag + ReplaceChar(temperature, '.', '_') + TrialTag + NatToString(trial)
  }

  /** `create_result_folder(base_folder, temperature, try_number)`; the
      temperature is given by its `str` form. */
  function ResultFolder(base: string, temperature: string, trial: nat): string
  {
    base + FolderTail(temperature, trial)
  }

  /** The folder starts with the base, carries the temperature with each `.`
      turned into `_` and no `.` left, and ends with `_try` and the trial number. */
  lemma ResultFolderShape(base: string, temperature: string, trial: nat)
    ensures var r, t := ResultFolder(base, temperature, trial), |TemperatureTag| + |temperature|;
            var shown := r[|base| + |TemperatureTag|..|base| + t];
            |r| == |base| + t + |TrialTag| + |NatToString(trial)|
            && r[..|base|] == base
            && '.' !in shown
            && (forall i :: 0 <= i < |temperature| ==>
                  shown[i] == if temperature[i] == '.' then '_' else temperature[i])
            && r[|base| + t..] == TrialTag + NatToString(trial)
  {
    var r := ResultFolder(base, temperature, trial);
    var shown := ReplaceChar(temperature, '.', '_');
    assert r == base + TemperatureTag + shown + (TrialTag + NatToString(trial));
    assert r[|base| + |TemperatureTag|..|base| + |TemperatureTag| + |temperature|] == shown;
  }

  /** Different trials of one configuration get different folders. */
  lemma ResultFolderSeparatesTrials(base: string, temperature: string, a: nat, b: nat)
    requires ResultFolder(base, temperature, a) == ResultFolder(base, temperature, b)
    ensures a == b
  {
    var prefix := base + TemperatureTag + ReplaceChar(temperature, '.', '_') + TrialTag;
    assert ResultFolder(base, temperature, a) == prefix + NatToString(a);
    assert ResultFolder(base, temperature, b) == prefix + NatToString(b);
    assert NatToString(a) == (prefix + NatToString(a))[|prefix|..];
    assert NatToString(b) == (prefix + NatToString(b))[|prefix|..];
    NatToStringInjective(a, b);
  }

  /** The one configuration every script runs: temperature `1`, trial 1. */
  lemma GeminiFolder()
    ensures ResultFolder("gemini_flash_result/gemini_flash_result", "1", 1)
            == "gemini_flash_result/gemini_flash_result_temp_1_try1"
  {
    assert ReplaceChar("1", '.', '_') == "1";
    assert NatToString(1) == "1";
  }

  /** `f"img_page{case_number}_0.png"` */
  function ImageFileName(caseNumber: int): string
  {
    "img_page" + IntToString(caseNumber) + "_0.png"
  }

  /** `f"{image_file_name}.txt"` */
  function ResultFileName(caseNumber: int): string
  {
    ImageFileName(caseNumber) + ResultSuffix
  }

  /** `os.path.join(result_folder, f"{image_file_name}.txt")` */
  function ResultPath(folder: string, caseNumber: int): string
  {
    PathJoin(folder, ResultFileName(caseNumber))
  }

  /** Distinct cases never share an image or a result file. */
  lemma FileNamesInjective(a: int, b: int)
    ensures ImageFileName(a) == ImageFileName(b) ==> a == b
    ensures ResultFileName(a) == ResultFileName(b) ==> a == b
  {
    var sa, sb := IntToString(a), IntToString(b);
    var na, nb := ImageFileName(a), ImageFileName(b);
    assert na[8..|na| - 6] == sa;
    assert nb[8..|nb| - 6] == sb;
    if ResultFileName(a) == ResultFileName(b) {
      assert na == ResultFileName(a)[..|na|];
      assert nb == ResultFileName(b)[..|nb|];
    }
    if sa == sb {
      IntToStringInjective(a, b);
    }
  }
}
