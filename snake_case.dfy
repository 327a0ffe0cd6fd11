/**
 * `SnakeCaseNamingPolicy.ConvertName`, the JSON property naming policy of the
 * statistics output. Upper case is the ASCII range `A`..`Z`; `char.IsUpper`
 * beyond ASCII is not modelled.
 */
module JsonSerializerHelper {
  import opened Wrappers

  predicate IsUpper(c: char) {
    'A' <= c <= 'Z'
  }

  function ToLower(c: char): (r: char)
    ensures !IsUpper(r)
    ensures IsUpper(c) ==> r as int == c as int + 32
    ensures !IsUpper(c) ==> r == c
  {
    if IsUpper(c) then (c as int + 32) as char else c
  }

  /** The text the loop appends for position `i` of `name`. */
  function Piece(name: string, i: nat): (p: string)
    requires i < |name|
    ensures 1 <= |p| <= 2
    ensures |p| == 2 <==> i > 0 && IsUpper(name[i]) && !IsUpper(name[i - 1])
    ensures |p| == 2 ==> p[0] == '_'
    ensures p[|p| - 1] == ToLower(name[i])
  {
    if IsUpper(name[i]) then
      if i == 0 || IsUpper(name[i - 1]) then [ToLower(name[i])] else ['_', ToLower(name[i])]
    else [name[i]]
  }

  /** What the builder holds after the first `n` positions. */
  function SnakePrefix(name: string, n: nat): string
    requires n <= |name|
  {
    if n == 0 then [] else SnakePrefix(name, n - 1) + Piece(name, n - 1)
  }

  /** The converted name. */
  function SnakeCase(name: string): string {
    SnakePrefix(name, |name|)
  }

  /** The positions among the first `n` where an underscore is inserted. */
  function Boundaries(name: string, n: nat): nat
    requires n <= |name|
  {
    if n == 0 then 0
    else Boundaries(name, n - 1) + (if n - 1 > 0 && IsUpper(name[n - 1]) && !IsUpper(name[n - 2]) then 1 else 0)
  }

  /**
   * Returns `null` and `""` unchanged; otherwise appends, position by
   * position, the lower-cased character, preceded by `_` when an upper-case
   * character follows a character that is not upper case.
   */
  method ConvertName(name: Option<string>) returns (r: Option<string>)
    ensures r.None? <==> name.None?
    ensures r.Some? ==> r.value == SnakeCase(name.value)
  {
    if name.None? || name.value == "" {
      return name;
    }
    var s := name.value;
    var builder := "";
    var i := 0;
    while i < |s|
      invariant 0 <= i <= |s|
      invariant builder == SnakePrefix(s, i)
    {
      var c := s[i];
      if IsUpper(c) {
        if i == 0 || IsUpper(s[i - 1]) {
          builder := builder + [ToLower(c)];
        } else {
          builder := builder + "_";
          builder := builder + [ToLower(c)];
        }
      } else {
        builder := builder + [c];
      }
      i := i + 1;
    }
    r := Some(builder);
  }

  /** The output has no upper-case character. */
  lemma {:induction false} NoUpperInPrefix(name: string, n: nat)
    requires n <= |name|
    ensures forall j :: 0 <= j < |SnakePrefix(name, n)| ==> !IsUpper(SnakePrefix(name, n)[j])
  {
    if n > 0 {
      NoUpperInPrefix(name, n - 1);
    }
  }

  /** Its length is the input's plus one per inserted underscore. */
  lemma {:induction false} PrefixLength(name: string, n: nat)
    requires n <= |name|
    ensures |SnakePrefix(name, n)| == n + Boundaries(name, n)
  {
    if n > 0 {
      PrefixLength(name, n - 1);
    }
  }

  /** A name without upper-case characters is copied unchanged. */
  lemma {:induction false} LowerPrefixUnchanged(name: string, n: nat)
    requires n <= |name|
    requires forall j :: 0 <= j < |name| ==> !IsUpper(name[j])
    ensures SnakePrefix(name, n) == name[..n]
  {
    if n > 0 {
      LowerPrefixUnchanged(name, n - 1);
      assert name[..n] == name[..n - 1] + [name[n - 1]];
    }
  }

  lemma NoUpperInOutput(name: string)
    ensures forall j :: 0 <= j < |SnakeCase(name)| ==> !IsUpper(SnakeCase(name)[j])
  {
    NoUpperInPrefix(name, |name|);
  }

  lemma OutputLength(name: string)
    ensures |SnakeCase(name)| == |name| + Boundaries(name, |name|)
  {
    PrefixLength(name, |name|);
  }

  lemma FixedPoint(name: string)
    requires forall j :: 0 <= j < |name| ==> !IsUpper(name[j])
    ensures SnakeCase(name) == name
  {
    LowerPrefixUnchanged(name, |name|);
  }

  /** Converting twice is converting once. */
  lemma Idempotent(name: string)
    ensures SnakeCase(SnakeCase(name)) == SnakeCase(name)
  {
    NoUpperInOutput(name);
    FixedPoint(SnakeCase(name));
  }

  const KEY := "PublicPlayersCount"

  /** A run of characters that are not upper case is copied unchanged, wherever it sits in the name. */
  lemma {:induction false} CopiedRun(name: string, m: nat, n: nat)
    requires m <= n <= |name|
    requires forall j :: m <= j < n ==> !IsUpper(name[j])
    ensures SnakePrefix(name, n) == SnakePrefix(name, m) + name[m..n]
    decreases n
  {
    if m < n {
      CopiedRun(name, m, n - 1);
      assert name[m..n] == name[m..n - 1] + [name[n - 1]];
    }
  }

  /** The first word of the key. */
  lemma KeyFirstWord()
    ensures SnakePrefix(KEY, 6) == "public"
  {
    assert Piece(KEY, 0) == "p";
    CopiedRun(KEY, 1, 6);
    assert KEY[1..6] == "ublic";
  }

  /** The second word of the key, after its underscore. */
  lemma KeySecondWord()
    ensures SnakePrefix(KEY, 13) == "public_players"
  {
    KeyFirstWord();
    CopiedRun(KEY, 7, 13);
    assert KEY[7..13] == "layers";
  }

  /** The statistics property the web front end reads. */
  lemma PublicPlayersCountKey()
    ensures SnakeCase(KEY) == "public_players_count"
  {
    KeySecondWord();
    CopiedRun(KEY, 14, 18);
    assert KEY[14..18] == "ount";
  }

}
