/** The command-line check in src/main.rs, before the editor starts. */
module Launcher {
  import opened Wrappers
  import PathPrompt

  /** Chars the program refuses in its path argument. */
  predicate IsInvalidArgChar(c: char)
  {
    c == '<' || c == '>' || c == ':' || c == '"' || c == '/' || c == '\\' || c == '|' || c == '?' || c == '*'
  }

  /** Either the program prints the offending char and exits, or it starts the editor. */
  datatype Launch = InvalidCharacter(c: char) | StartEditor(pathArg: Option<string>)

  /**
   * Scans the argument's chars in order and stops at the first invalid one;
   * otherwise the argument, or its absence, goes to the editor unchanged.
   */
  method CheckPathArg(pathArg: Option<string>) returns (l: Launch)
    ensures pathArg.None? ==> l == StartEditor(None)
    ensures l.StartEditor? ==> l.pathArg == pathArg
    ensures l.StartEditor? && pathArg.Some? ==> forall i :: 0 <= i < |pathArg.value| ==> !IsInvalidArgChar(pathArg.value[i])
    ensures l.InvalidCharacter? ==>
              && pathArg.Some? && IsInvalidArgChar(l.c)
              && exists i :: 0 <= i < |pathArg.value| && pathArg.value[i] == l.c &&
                             forall j :: 0 <= j < i ==> !IsInvalidArgChar(pathArg.value[j])
  {
    if pathArg.Some? {
      var s := pathArg.value;
      for i := 0 to |s|
        invariant forall j :: 0 <= j < i ==> !IsInvalidArgChar(s[j])
      {
        if IsInvalidArgChar(s[i]) {
          return InvalidCharacter(s[i]);
        }
      }
    }
    l := StartEditor(pathArg);
  }

  /**
   * Every char the save prompt ignores is also refused here, but a path typed
   * at the prompt may hold the separators '/' and '\\' that an argument may not.
   */
  lemma PromptIsLaxerThanArgument(c: char)
    ensures PathPrompt.IsRejectedPathChar(c) ==> IsInvalidArgChar(c)
    ensures IsInvalidArgChar(c) && !PathPrompt.IsRejectedPathChar(c) <==> c == '/' || c == '\\'
  {
  }
}
