// The extension test that decides which files of the input tree are
// Cucumber feature files (FileUtil.isCucumberFile). Only the file's own
// name takes part; the directory it sits in does not.
module FileUtil {
  import opened JavaStrings

  const FeatureExtension: string := "feature"

  /**
   * The text after the last '.' of `name`, or all of `name` when it has no
   * '.' (lastIndexOf gives -1, so the substring starts at 0).
   * It is the longest suffix of `name` without a '.'.
   */
  function Extension(name: string): (ext: string)
    ensures |ext| <= |name| && name[|name| - |ext|..] == ext
    ensures '.' !in ext
    ensures |ext| < |name| ==> name[|name| - |ext| - 1] == '.'
    ensures |ext| == |name| ==> '.' !in name
  {
    name[LastIndexOf(name, '.') + 1..]
  }

  /** A file is processed when its extension is exactly "feature" (case-sensitive). */
  predicate IsCucumberFile(name: string)
  {
    Extension(name) == FeatureExtension
  }

  /** An accepted name is the bare "feature" or ends in ".feature". */
  lemma AcceptedNameShape(name: string)
    requires IsCucumberFile(name)
    ensures name == FeatureExtension || (|name| >= 8 && name[|name| - 8..] == "." + FeatureExtension)
  {
    var ext := Extension(name);
    if |ext| < |name| {
      assert |name| >= 8 && name[|name| - 7..] == FeatureExtension;
      assert name[|name| - 8] == '.';
      assert name[|name| - 8..] == [name[|name| - 8]] + name[|name| - 7..];
    }
  }

  /** A name ending in ".feature" has "feature" after its last dot. */
  lemma DotFeatureAccepted(name: string)
    requires |name| >= 8 && name[|name| - 8..] == "." + FeatureExtension
    ensures IsCucumberFile(name)
  {
    var k := LastIndexOf(name, '.');
    assert name[|name| - 8] == '.';
    forall j | |name| - 8 < j < |name|
      ensures name[j] != '.'
    {
      assert name[j] == FeatureExtension[j - (|name| - 7)];
    }
    assert k == |name| - 8;
    assert Extension(name) == name[|name| - 7..];
  }

  /**
   * Independent description of the accepted names: either the bare name
   * "feature" or any name that ends in ".feature".
   */
  lemma IsCucumberFileIff(name: string)
    ensures IsCucumberFile(name) <==>
      name == FeatureExtension || (|name| >= 8 && name[|name| - 8..] == "." + FeatureExtension)
  {
    if IsCucumberFile(name) {
      AcceptedNameShape(name);
    }
    if |name| >= 8 && name[|name| - 8..] == "." + FeatureExtension {
      DotFeatureAccepted(name);
    } else if name == FeatureExtension {
      assert '.' !in name;
      assert Extension(name) == name;
    }
  }

  /** The bare name "feature" has no dot, so all of it is the extension: it is accepted. */
  lemma BareFeatureNameAccepted()
    ensures IsCucumberFile("feature")
  {
    IsCucumberFileIff("feature");
  }

  /** The comparison is case-sensitive. */
  lemma UpperCaseRejected()
    ensures !IsCucumberFile("x.FEATURE")
  {
    IsCucumberFileIff("x.FEATURE");
    assert "x.FEATURE"[1..] != "." + FeatureExtension;
  }

  /** Only the text after the last dot counts; a trailing dot leaves an empty extension. */
  lemma OnlyLastDotCounts()
    ensures IsCucumberFile("a.b.feature")
    ensures !IsCucumberFile("a.feature.bak")
    ensures !IsCucumberFile("a.")
  {
    IsCucumberFileIff("a.b.feature");
    IsCucumberFileIff("a.feature.bak");
    assert "a.feature.bak"[5..] != "." + FeatureExtension;
    IsCucumberFileIff("a.");
  }
}
