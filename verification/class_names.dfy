/** Fully qualified Java class names. */
module ClassNames {
  /** `s.lastIndexOf(ch)`: the last position holding `ch`, or -1. */
  function LastIndexOf(s: string, ch: char): (r: int)
    ensures -1 <= r < |s|
    ensures r == -1 <==> ch !in s
    ensures r >= 0 ==> s[r] == ch && forall k :: r < k < |s| ==> s[k] != ch
    decreases |s|
  {
    if s == [] then -1
    else if s[|s| - 1] == ch then |s| - 1
    else
      assert forall x :: x in s <==> x in s[..|s| - 1] || x == s[|s| - 1];
      LastIndexOf(s[..|s| - 1], ch)
  }

  /**
   * The package part of a class name: everything before the last dot, or
   * the empty string when there is no dot or the only dot leads the name.
   */
  function GetPackageName(clazz: string): (r: string)
    ensures r == "" <==> forall k :: 0 < k < |clazz| ==> clazz[k] != '.'
    ensures r != "" ==> |r| < |clazz| && clazz[..|r|] == r && clazz[|r|] == '.'
                        && forall k :: |r| < k < |clazz| ==> clazz[k] != '.'
  {
    var lastDot := LastIndexOf(clazz, '.');
    if lastDot <= 0 then "" else clazz[..lastDot]
  }

  /** A package name joined to a simple name with a dot is recovered from the result. */
  lemma PackageOfQualified(package: string, simple: string)
    requires package != ""
    requires '.' !in simple
    ensures GetPackageName(package + "." + simple) == package
  {
    var clazz := package + "." + simple;
    assert clazz[|package|] == '.';
    forall k | |package| < k < |clazz| ensures clazz[k] != '.' {
      assert clazz[k] == simple[k - |package| - 1];
    }
    var r := GetPackageName(clazz);
    assert r != "";
    assert clazz[..|package|] == package;
  }
}
