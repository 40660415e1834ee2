/** Language selection: the provider starts in English, then picks the saved
    choice if it names a supported language and otherwise follows the browser
    locale; choosing a language stores it. Storage and the browser locale are
    inputs: the saved value is `None` when nothing was stored. */
module I18n {
  import opened Options
  import opened Strings

  datatype Language = En | Zh

  /** The value stored under the `lang` key. */
  function Code(l: Language): string {
    match l
    case En => "en"
    case Zh => "zh"
  }

  /** The language chosen on mount from the saved value and `navigator.language`. */
  function Detect(saved: Option<string>, browserLanguage: string): (l: Language)
    ensures saved == Some("en") ==> l == En
    ensures saved == Some("zh") ==> l == Zh
    ensures saved != Some("en") && saved != Some("zh") ==>
      (l == Zh <==> StartsWith(browserLanguage, "zh"))
  {
    match saved
    case Some(s) =>
      if s == "en" then En
      else if s == "zh" then Zh
      else if StartsWith(browserLanguage, "zh") then Zh else En
    case None =>
      if StartsWith(browserLanguage, "zh") then Zh else En
  }

  /** The provider's state: the language in use and the stored choice. */
  datatype Provider = Provider(lang: Language, saved: Option<string>)

  /** Before detection runs the language is English, whatever is stored. */
  function Mount(saved: Option<string>): (p: Provider)
    ensures p.lang == En && p.saved == saved
  {
    Provider(En, saved)
  }

  /** The effect that runs once after mounting. */
  function AfterDetect(p: Provider, browserLanguage: string): (q: Provider)
    ensures q.saved == p.saved
  {
    p.(lang := Detect(p.saved, browserLanguage))
  }

  /** `handleSetLang(l)`: switch to `l` and store it. */
  function SetLang(p: Provider, l: Language): (q: Provider)
    ensures q.lang == l
    ensures q.saved.Some? && q.saved.value == Code(l)
  {
    Provider(l, Some(Code(l)))
  }

  /** A stored code is read back as the language it encodes. */
  lemma DetectReadsCode(l: Language, browserLanguage: string)
    ensures Detect(Some(Code(l)), browserLanguage) == l
  {
  }

  /** A choice survives a reload: whatever the browser locale, the next
      mount and detection come back to the language last set. */
  lemma ChoicePersists(p: Provider, l: Language, browserLanguage: string)
    ensures AfterDetect(Mount(SetLang(p, l).saved), browserLanguage).lang == l
  {
    DetectReadsCode(l, browserLanguage);
  }

  /** With no usable saved value the locale decides, and only a `zh…` locale
      gives Chinese. */
  lemma LocaleDecides(saved: Option<string>, browserLanguage: string)
    requires saved.None? || (saved.value != "en" && saved.value != "zh")
    ensures Detect(saved, browserLanguage) == (if StartsWith(browserLanguage, "zh") then Zh else En)
  {
  }

  // ---------------------------------------------------------------------------
  // Translations
  // ---------------------------------------------------------------------------

  /** Keys of the messages for the header, the connection screen and the welcome steps. */
  const ConnectionKeys: set<string> := {
    "title", "subtitle", "connect", "connecting", "disconnect", "connected",
    "waitingAuth", "authHint", "readyTitle", "readyDesc", "step1", "step2"
  }

  const EnglishConnection: map<string, string> := map[
    "title" := "Web ADB Manager",
    "subtitle" := "Browser ADB Client",
    "connect" := "Connect Phone",
    "connecting" := "Connecting...",
    "disconnect" := "Disconnect",
    "connected" := "Connected",
    "waitingAuth" := "Waiting for Auth...",
    "authHint" := "Please click \"Always allow debugging\" on your phone",
    "readyTitle" := "Ready to Start",
    "readyDesc" := "Please connect your Android phone via USB and ensure USB Debugging is enabled.",
    "step1" := "Enable Developer Options",
    "step2" := "Enable USB Debugging"
  ]

  const ChineseConnection: map<string, string> := map[
    "title" := "Web ADB 管理器",
    "subtitle" := "纯网页 ADB 客户端",
    "connect" := "连接手机",
    "connecting" := "正在连接...",
    "disconnect" := "断开",
    "connected" := "已连接",
    "waitingAuth" := "等待授权...",
    "authHint" := "请在手机上点击“始终允许来自此计算机的调试”",
    "readyTitle" := "准备开始",
    "readyDesc" := "请通过 USB 数据线连接您的 Android 手机，并确保已开启 USB 调试。",
    "step1" := "启用开发者选项",
    "step2" := "开启 USB 调试"
  ]

  /** Keys of the messages for the tabs, the installer and the file explorer. */
  const FilesKeys: set<string> := {
    "fileManager", "appManager", "shell", "installApk", "installing", "installSuccess",
    "installFailed", "loadingFiles", "emptyDir", "name", "size", "action", "download",
    "preview", "upload"
  }

  const EnglishFiles: map<string, string> := map[
    "fileManager" := "Files",
    "appManager" := "Apps",
    "shell" := "ADB Shell",
    "installApk" := "Install APK",
    "installing" := "Installing...",
    "installSuccess" := "Installation successful!",
    "installFailed" := "Installation failed",
    "loadingFiles" := "Reading filesystem...",
    "emptyDir" := "Directory is empty",
    "name" := "Name",
    "size" := "Size",
    "action" := "Action",
    "download" := "Download",
    "preview" := "Preview",
    "upload" := "Upload"
  ]

  const ChineseFiles: map<string, string> := map[
    "fileManager" := "文件管理",
    "appManager" := "应用管理",
    "shell" := "ADB Shell",
    "installApk" := "安装 APK",
    "installing" := "正在安装...",
    "installSuccess" := "安装成功！",
    "installFailed" := "安装失败",
    "loadingFiles" := "正在读取文件系统...",
    "emptyDir" := "此目录为空",
    "name" := "名称",
    "size" := "大小",
    "action" := "操作",
    "download" := "下载",
    "preview" := "预览",
    "upload" := "上传"
  ]

  /** Keys of the messages for the application manager. */
  const AppListKeys: set<string> := {
    "searchApps", "userApps", "systemApps", "noApps", "uninstall", "disable", "run",
    "confirmUninstall"
  }

  const EnglishAppList: map<string, string> := map[
    "searchApps" := "Search package name...",
    "userApps" := "User Apps",
    "systemApps" := "System Apps",
    "noApps" := "No apps found",
    "uninstall" := "Uninstall",
    "disable" := "Disable",
    "run" := "Run",
    "confirmUninstall" := "Are you sure you want to uninstall {pkg}?"
  ]

  const ChineseAppList: map<string, string> := map[
    "searchApps" := "搜索应用包名...",
    "userApps" := "用户应用",
    "systemApps" := "系统应用",
    "noApps" := "未找到应用",
    "uninstall" := "卸载",
    "disable" := "停用",
    "run" := "运行",
    "confirmUninstall" := "确定要卸载 {pkg} 吗？"
  ]

  /** Keys of the messages for the screen mirror. */
  const MirrorKeys: set<string> := {
    "mirror", "stopMirror", "mirrorTitle", "mirrorLoading", "reconnect", "permTitle",
    "permDesc", "home", "back", "power"
  }

  const EnglishMirror: map<string, string> := map[
    "mirror" := "Mirror",
    "stopMirror" := "Stop",
    "mirrorTitle" := "Live Preview",
    "mirrorLoading" := "Initialising Scrcpy...",
    "reconnect" := "Retry",
    "permTitle" := "Control Restricted",
    "permDesc" := "Xiaomi detected? Enable \"USB Debugging (Security Settings)\" then refresh.",
    "home" := "Home",
    "back" := "Back",
    "power" := "Power"
  ]

  const ChineseMirror: map<string, string> := map[
    "mirror" := "手机预览",
    "stopMirror" := "停止预览",
    "mirrorTitle" := "实时预览",
    "mirrorLoading" := "正在初始化...",
    "reconnect" := "重试连接",
    "permTitle" := "控制受限",
    "permDesc" := "请开启手机“USB调试（安全设置）”，然后刷新预览窗口。",
    "home" := "主页",
    "back" := "返回",
    "power" := "电源"
  ]


  /** The message keys every table provides. */
  const MessageKeys: set<string> := ConnectionKeys + FilesKeys + AppListKeys + MirrorKeys

  const English: map<string, string> := EnglishConnection + EnglishFiles + EnglishAppList + EnglishMirror

  const Chinese: map<string, string> := ChineseConnection + ChineseFiles + ChineseAppList + ChineseMirror

  // Each group of messages has the same keys in both languages.

  lemma EnglishConnectionKeys()
    ensures EnglishConnection.Keys == ConnectionKeys
  {
  }

  lemma ChineseConnectionKeys()
    ensures ChineseConnection.Keys == ConnectionKeys
  {
  }

  lemma EnglishFilesKeys()
    ensures EnglishFiles.Keys == FilesKeys
  {
  }

  lemma ChineseFilesKeys()
    ensures ChineseFiles.Keys == FilesKeys
  {
  }

  lemma EnglishAppListKeys()
    ensures EnglishAppList.Keys == AppListKeys
  {
  }

  lemma ChineseAppListKeys()
    ensures ChineseAppList.Keys == AppListKeys
  {
  }

  lemma EnglishMirrorKeys()
    ensures EnglishMirror.Keys == MirrorKeys
  {
  }

  lemma ChineseMirrorKeys()
    ensures ChineseMirror.Keys == MirrorKeys
  {
  }

  /** The table for a language (`translations[lang]`); it defines exactly the
      message keys. */
  function Table(l: Language): (t: map<string, string>)
    ensures t.Keys == MessageKeys
  {
    EnglishConnectionKeys();
    ChineseConnectionKeys();
    EnglishFilesKeys();
    ChineseFilesKeys();
    EnglishAppListKeys();
    ChineseAppListKeys();
    EnglishMirrorKeys();
    ChineseMirrorKeys();
    match l
    case En => English
    case Zh => Chinese
  }

  /** The English and Chinese tables define the same keys, so no message is
      missing after switching language. */
  lemma TablesShareKeys()
    ensures Table(En).Keys == Table(Zh).Keys
  {
  }

  /** `t[key]` as the provider exposes it: looked up in the table of the
      language in use, and defined for every message key in either language. */
  function Message(p: Provider, key: string): (m: Option<string>)
    ensures key in MessageKeys ==> m.Some?
    ensures key !in MessageKeys ==> m.None?
  {
    var t := Table(p.lang);
    if key in t then Some(t[key]) else None
  }

  /** After choosing a language every message comes from that language's table. */
  lemma MessagesFollowChoice(p: Provider, l: Language, key: string)
    ensures key in MessageKeys ==> Message(SetLang(p, l), key) == Some(Table(l)[key])
  {
  }
}
