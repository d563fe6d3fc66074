/** The sidebar: the fixed main section, the admin section built from the permission
    check, and which entry is highlighted for the current location. */
module Sidebar {
  import opened Wrappers
  import opened Permissions

  /** A menu entry (its icon is left out). */
  datatype MenuItem = MenuItem(text: string, path: string)

  const Dashboard: MenuItem := MenuItem("Dashboard", "/")
  const Products: MenuItem := MenuItem("Producten", "/admin/products")
  const Categories: MenuItem := MenuItem("Categorie\U{EB}n", "/admin/categories")
  const Activities: MenuItem := MenuItem("Activiteit", "/admin/activities")

  /** The main section: always exactly the dashboard. */
  const MainItems: seq<MenuItem> := [Dashboard]

  /** `isActive(path)`: the entry whose path is exactly the current location. */
  predicate IsActive(location: string, path: string) {
    location == path
  }

  /** The admin entries a role gets: the three product-management pages, in this order,
      for a role that may manage products, and none otherwise. */
  function AdminItemsOf(role: Option<Role>): (items: seq<MenuItem>)
    ensures HasFeature(role, ManageProducts) ==> items == [Products, Categories, Activities]
    ensures !HasFeature(role, ManageProducts) ==> items == []
    ensures |items| > 0 <==> role == Some(ADMIN)
  {
    if HasFeature(role, ManageProducts) then [Products, Categories, Activities] else []
  }

  /** `getAdminItems(role)`: starts empty and pushes each entry the role may see. */
  method GetAdminItems(role: Option<Role>) returns (items: seq<MenuItem>)
    ensures items == AdminItemsOf(role)
  {
    items := [];
    if HasFeature(role, ManageProducts) {
      items := items + [Products];
      items := items + [Categories];
      items := items + [Activities];
    }
  }

  /** The ADMIN heading is shown when there is at least one admin entry. */
  predicate ShowsAdminSection(items: seq<MenuItem>) {
    |items| > 0
  }

  /** Every entry the sidebar can show, main section first. */
  function AllItems(role: Option<Role>): (items: seq<MenuItem>)
    ensures |items| >= 1 && items[..1] == MainItems
    ensures items[1..] == AdminItemsOf(role)
    ensures ShowsAdminSection(AdminItemsOf(role)) <==> role == Some(ADMIN)
  {
    MainItems + AdminItemsOf(role)
  }

  /** The dashboard entry is highlighted exactly at the root location. */
  lemma DashboardActiveOnlyAtRoot(role: Option<Role>, location: string)
    ensures IsActive(location, AllItems(role)[0].path) <==> location == "/"
  {
  }

  /** The paths of the entries are distinct, so at most one entry is highlighted at any
      location, and it is the one whose path is that location. */
  lemma AtMostOneActive(role: Option<Role>, location: string, i: nat, j: nat)
    requires i < |AllItems(role)| && j < |AllItems(role)|
    requires IsActive(location, AllItems(role)[i].path) && IsActive(location, AllItems(role)[j].path)
    ensures i == j
  {
    var items := AllItems(role);
    if role == Some(ADMIN) {
      assert items == [Dashboard, Products, Categories, Activities];
      assert items[0].path[1..] == [];
      assert items[1].path[7] == 'p' && items[2].path[7] == 'c' && items[3].path[7] == 'a';
    } else {
      assert items == [Dashboard];
    }
  }
}
