/**
 * ConfigManager.java: the one configuration object of the launcher, holding the user profiles
 * and the index of the profile in use. Reading and writing `config.json` is replaced by the
 * outcome of the read, given as a value.
 */
module Config {
  import opened Model

  const ConfigFilePath := "config.json"

  /** What reading the configuration file gives: no file, a failed read, or its two fields. */
  datatype ConfigFile =
    | NoFile
    | Unreadable
    | Parsed(profiles: seq<UserProfile>, currentUserProfileIndex: Int32)

  class ConfigManager {
    var profiles: seq<UserProfile>
    var currentUserProfileIndex: Int32

    /** The private constructor: no profiles, index 0, and so no current profile. */
    constructor ()
      ensures profiles == [] && currentUserProfileIndex == 0
      ensures CurrentUserProfile() == null
    {
      profiles := [];
      currentUserProfileIndex := 0;
    }

    /**
     * `getCurrentUserProfile`: the profile at the index when the index lies within the list,
     * and null for every other index (negative, past the end, or any index of an empty list).
     */
    function CurrentUserProfile(): (p: UserProfile?)
      reads this
      ensures p != null <==> 0 <= currentUserProfileIndex as int < |profiles|
      ensures p != null ==> p == profiles[currentUserProfileIndex]
    {
      if 0 <= currentUserProfileIndex as int < |profiles| then profiles[currentUserProfileIndex] else null
    }

    /** `setCurrentUserProfileIndex`: only the index changes; it is not checked against the list. */
    method SetCurrentUserProfileIndex(index: Int32)
      modifies this
      ensures currentUserProfileIndex == index && profiles == old(profiles)
      ensures 0 <= index as int < |profiles| ==> CurrentUserProfile() == profiles[index]
    {
      currentUserProfileIndex := index;
    }

    /**
     * `loadConfig`: a parsed file replaces both fields; with no file, or when the read fails,
     * nothing changes.
     */
    method LoadConfig(file: ConfigFile)
      modifies this
      ensures file.Parsed? ==> profiles == file.profiles && currentUserProfileIndex == file.currentUserProfileIndex
      ensures !file.Parsed? ==> profiles == old(profiles) && currentUserProfileIndex == old(currentUserProfileIndex)
    {
      if file.Parsed? {
        profiles := file.profiles;
        currentUserProfileIndex := file.currentUserProfileIndex;
      }
    }
  }

  /** The static `instance` field of ConfigManager, which starts out null. */
  class ConfigManagerInstance {
    var instance: ConfigManager?

    constructor ()
      ensures instance == null
    {
      instance := null;
    }

    /**
     * `getInstance`: the first call creates the manager, every later call returns the same
     * object, whatever state it has reached.
     */
    method GetInstance() returns (manager: ConfigManager)
      modifies this
      ensures instance == manager
      ensures old(instance) != null ==> manager == old(instance)
      ensures old(instance) == null ==> fresh(manager) && manager.profiles == [] && manager.currentUserProfileIndex == 0
    {
      if instance == null {
        instance := new ConfigManager();
      }
      manager := instance;
    }
  }

  /** Two calls to `getInstance` give the one manager, even when it was changed in between. */
  method SameInstance(statics: ConfigManagerInstance, index: Int32) returns (first: ConfigManager, second: ConfigManager)
    modifies statics, statics.instance
    ensures first == second && second.currentUserProfileIndex == index
  {
    first := statics.GetInstance();
    first.SetCurrentUserProfileIndex(index);
    second := statics.GetInstance();
  }

  /** Loading without a configuration file, right after start-up, leaves no current profile. */
  method StartWithoutConfigFile(statics: ConfigManagerInstance) returns (manager: ConfigManager)
    requires statics.instance == null
    modifies statics
    ensures manager.profiles == [] && manager.CurrentUserProfile() == null
  {
    manager := statics.GetInstance();
    manager.LoadConfig(NoFile);
  }
}
