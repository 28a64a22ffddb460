/** The option names that `MountOptionParser` treats specially, interned, and the order in which
    options are printed. */
module OptionKeys {
  import opened Wrappers
  import opened Text

  datatype Key =
    | Uid | Gid | Fmode | FileMode | Dmode | DirMode
    | Rsize | Wsize | Timeo | Retrans | Nfsvers | Vers
    | Ro | Rw | Nosuid | Suid | Nodev | Noexec
    | Soft | Hard | Intr | Nointr
    | AllowOther | DefaultPermissions
    | Other(name: string)

  function Spell(k: Key): string {
    match k
    case Uid => "uid"
    case Gid => "gid"
    case Fmode => "fmode"
    case FileMode => "file_mode"
    case Dmode => "dmode"
    case DirMode => "dir_mode"
    case Rsize => "rsize"
    case Wsize => "wsize"
    case Timeo => "timeo"
    case Retrans => "retrans"
    case Nfsvers => "nfsvers"
    case Vers => "vers"
    case Ro => "ro"
    case Rw => "rw"
    case Nosuid => "nosuid"
    case Suid => "suid"
    case Nodev => "nodev"
    case Noexec => "noexec"
    case Soft => "soft"
    case Hard => "hard"
    case Intr => "intr"
    case Nointr => "nointr"
    case AllowOther => "allow_other"
    case DefaultPermissions => "default_permissions"
    case Other(name) => name
  }

  function Classify(s: string): (k: Key)
    ensures Spell(k) == s
  {
    match s
    case "uid" => Uid
    case "gid" => Gid
    case "fmode" => Fmode
    case "file_mode" => FileMode
    case "dmode" => Dmode
    case "dir_mode" => DirMode
    case "rsize" => Rsize
    case "wsize" => Wsize
    case "timeo" => Timeo
    case "retrans" => Retrans
    case "nfsvers" => Nfsvers
    case "vers" => Vers
    case "ro" => Ro
    case "rw" => Rw
    case "nosuid" => Nosuid
    case "suid" => Suid
    case "nodev" => Nodev
    case "noexec" => Noexec
    case "soft" => Soft
    case "hard" => Hard
    case "intr" => Intr
    case "nointr" => Nointr
    case "allow_other" => AllowOther
    case "default_permissions" => DefaultPermissions
    case _ => Other(s)
  }

  /** `Other` is used for unknown names only. */
  predicate WellSpelled(k: Key) {
    Classify(Spell(k)) == k
  }

  lemma KnownKeysWellSpelled(k: Key)
    requires !k.Other?
    ensures WellSpelled(k)
  {
  }

  lemma KnownKeysClean(k: Key)
    requires !k.Other?
    ensures ',' !in Spell(k) && '=' !in Spell(k)
  {
  }

  lemma KnownKeysTight(k: Key)
    requires !k.Other?
    ensures Spell(k) != "" && Tight(Spell(k))
  {
  }

  lemma SpellInjective(j: Key, k: Key)
    requires WellSpelled(j) && WellSpelled(k) && Spell(j) == Spell(k)
    ensures j == k
  {
  }
}
