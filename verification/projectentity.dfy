/** The kind of project a path names (app/src/db/entity/projects.rs): Xcode
    for a workspace or project bundle, Android for a Gradle build file. */
module ProjectEntity {
  import opened Wrappers
  import opened Text
  import Paths

  datatype ProjectType = Xcode | Android

  /** The lower-case name the type is stored and serialised under. */
  function TypeText(t: ProjectType): (text: string)
    ensures text == "xcode" || text == "android"
  {
    match t
    case Xcode => "xcode"
    case Android => "android"
  }

  predicate IsXcodeName(name: string) {
    EndsWith(name, ".xcworkspace") || EndsWith(name, ".xcodeproj")
  }

  predicate IsGradleName(name: string) {
    name == "build.gradle" || name == "build.gradle.kts"
  }

  /** The two Gradle build-file names are not Xcode names. */
  lemma GradleIsNotXcode(name: string)
    requires IsGradleName(name)
    ensures !IsXcodeName(name)
  {
    if name == "build.gradle" {
      assert name[|name| - 1] != "x.xcodeproj"[10];
    } else {
      assert name[|name| - 1] != "x.xcodeproj"[10];
    }
  }

  /** `ProjectType::from_path`: judged by the path's file name alone. */
  function FromPath(path: Paths.Path): (r: Option<ProjectType>)
    ensures r == Some(Xcode) <==> Paths.FileName(path).Some? && IsXcodeName(Paths.FileName(path).value)
    ensures r == Some(Android) <==> Paths.FileName(path).Some? && IsGradleName(Paths.FileName(path).value)
    ensures r.None? <==> (Paths.FileName(path).None?
                          || (!IsXcodeName(Paths.FileName(path).value) && !IsGradleName(Paths.FileName(path).value)))
  {
    match Paths.FileName(path)
    case None => None
    case Some(name) =>
      if IsXcodeName(name) then Some(Xcode)
      else if IsGradleName(name) then Some(Android)
      else None
  }
}
