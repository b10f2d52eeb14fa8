/** Default user names (backEnd/src/utils/genrateUserName.js). */
module UserNames {
  import opened Text

  /** A value of `Math.floor(Math.random() * 1000)`. */
  type Below1000 = n: nat | n < 1000
  /** A value of `Math.floor(Math.random() * 100)`. */
  type Below100 = n: nat | n < 100

  /** The random draws and clock readings the candidate loop consumes, indexed
      by the loop counter. */
  datatype Oracles = Oracles(wide: nat -> Below1000, narrow: nat -> Below100, clock: nat -> nat)

  /** The base name: a truthy full name lowercased with every white-space
      character removed, otherwise the lowercased part of the e-mail before
      its first '@'. */
  function BaseName(fullName: string, email: string): (r: string)
    ensures fullName != "" ==> forall i :: 0 <= i < |r| ==> !IsSpace(r[i]) && !IsUpper(r[i])
    ensures fullName == "" ==>
      |r| <= |email| && r == ToLower(email[..|r|]) && (|r| == |email| || email[|r|] == '@')
      && forall i :: 0 <= i < |r| ==> r[i] != '@'
  {
    if fullName != "" then
      RemoveSpaces(ToLower(fullName))
    else
      SplitFirst(email, '@');
      ToLower(Split(email, '@')[0])
  }

  /** A truthy full name gives the base made of its non-white-space
      characters, in their order, lower-cased: every such character of the
      name is in the base, and the base of a name made of two parts is the
      base of the first part followed by the base of the second. */
  lemma BaseNameOfFullName(fullName: string, email: string, a: string, b: string)
    requires fullName != "" && fullName == a + b
    ensures BaseName(fullName, email) == ToLower(RemoveSpaces(fullName))
    ensures forall c :: c in fullName && !IsSpace(c) ==> LowerChar(c) in BaseName(fullName, email)
    ensures BaseName(fullName, email) == ToLower(RemoveSpaces(a)) + ToLower(RemoveSpaces(b))
  {
    LowerThenRemoveSpaces(fullName);
    RemoveSpacesAppend(a, b);
    var kept := RemoveSpaces(fullName);
    forall c | c in fullName && !IsSpace(c) ensures LowerChar(c) in ToLower(kept) {
      RemoveSpacesKeeps(fullName, c);
      var i :| 0 <= i < |kept| && kept[i] == c;
      assert ToLower(kept)[i] == LowerChar(c);
    }
    ToLowerAppend(RemoveSpaces(a), RemoveSpaces(b));
  }

  /** The candidate tried on round `counter`: the base itself, then the base
      with a number below 1000, then the base with the last four digits of
      the clock and a number below 100. */
  function Candidate(base: string, counter: nat, o: Oracles): (r: string)
    ensures StartsWith(r, base)
    ensures counter > 0 ==> |r| > |base|
  {
    if counter == 0 then base
    else if counter == 1 then base + Decimal(o.wide(1))
    else base + LastChars(Decimal(o.clock(counter)), 4) + Decimal(o.narrow(counter))
  }

  /** `generateUserName(fullName, email)`: `taken` is the set of user names in
      use, and `fuel` bounds the number of rounds of the source's unbounded
      loop. The result holds up to two distinct free names that extend the
      base, the base first exactly when it is free, and fewer than two only
      when every candidate of the `fuel` rounds was taken or already chosen. */
  method GenerateUserNames(fullName: string, email: string, taken: set<string>, o: Oracles, fuel: nat)
    returns (names: seq<string>)
    ensures |names| <= 2 && |names| <= fuel
    ensures forall i :: 0 <= i < |names| ==> names[i] !in taken && StartsWith(names[i], BaseName(fullName, email))
    ensures forall i :: 0 <= i < |names| ==> CheckAvailable(names[i], taken).available
    ensures forall i, j :: 0 <= i < j < |names| ==> names[i] != names[j]
    ensures fuel > 0 ==>
      (BaseName(fullName, email) !in taken <==> |names| > 0 && names[0] == BaseName(fullName, email))
    ensures |names| < 2 ==>
      forall k :: 0 <= k < fuel ==> Candidate(BaseName(fullName, email), k, o) in taken || Candidate(BaseName(fullName, email), k, o) in names
  {
    var base := BaseName(fullName, email);
    names := [];
    var counter := 0;
    while |names| < 2 && counter < fuel
      invariant counter <= fuel
      invariant |names| <= 2 && |names| <= counter
      invariant forall i :: 0 <= i < |names| ==> names[i] !in taken && StartsWith(names[i], base)
      invariant forall i :: 0 <= i < |names| ==> names[i] == base || |names[i]| > |base|
      invariant forall i, j :: 0 <= i < j < |names| ==> names[i] != names[j]
      invariant counter > 0 ==> (base !in taken <==> |names| > 0 && names[0] == base)
      invariant counter == 0 ==> names == []
      invariant forall k :: 0 <= k < counter ==> Candidate(base, k, o) in taken || Candidate(base, k, o) in names
    {
      var candidate := Candidate(base, counter, o);
      if candidate !in taken && candidate !in names {
        names := names + [candidate];
      }
      counter := counter + 1;
    }
  }

  datatype Availability = Availability(username: string, available: bool)

  /** `checkAvailableUsernames(username)`: echoes the name and reports it
      available exactly when no user has it. */
  function CheckAvailable(username: string, taken: set<string>): (r: Availability)
    ensures r.username == username
    ensures r.available <==> username !in taken
  {
    Availability(username, username !in taken)
  }
}
